/**
  The signature database engine (secdb.c, secdb.h): lists of entries found by type and size,
  duplicate suppression, deletion and sorting.

  The ring of lists and the rings of entries are sequences here; that the ring primitives and
  list_sort realise sequence operations is proved in module Ring.
 */
module SecDb {
  import opened Bytes
  import opened EslIter
  import opened Guids
  import opened Sorting

  // ---------- the algorithm table ----------

  const X509_CERT := 0
  const X509_SHA256 := 1
  const SHA256 := 2
  const X509_SHA512 := 3
  const SHA512 := 4
  const X509_SHA384 := 5
  const SHA224 := 6
  const SHA384 := 7
  const SHA1 := 8
  const RSA2048 := 9
  const RSA2048_SHA1 := 10
  const RSA2048_SHA256 := 11
  const TYPE_MAX := 12

  /** The data size in efi_secdb_algs_; every type has an owner and no header. */
  function TableSize(alg: nat): (n: nat)
    requires alg < TYPE_MAX
  {
    match alg
    case 0 => 0
    case 1 => 256
    case 2 => 32
    case 3 => 512
    case 4 => 64
    case 5 => 384
    case 6 => 28
    case 7 => 48
    case 8 => 20
    case 9 => 256
    case 10 => 256
    case _ => 256
  }

  /** The size of a whole entry, owner included. */
  function EntrySize(alg: nat): (n: nat)
    requires alg < TYPE_MAX
  {
    TableSize(alg) + 16
  }

  function TypeGuid(alg: nat): (g: Guid)
    requires alg < TYPE_MAX
  {
    match alg
    case 0 => FromText(0xa5c059a1, 0x94e4, 0x4aa7, 0x87b5, 0xab155c2bf072)
    case 1 => FromText(0x3bd2a492, 0x96c0, 0x4079, 0xb420, 0xfcf98ef103ed)
    case 2 => FromText(0xc1c41626, 0x504c, 0x4092, 0xaca9, 0x41f936934328)
    case 3 => FromText(0x446dbf63, 0x2502, 0x4cda, 0xbcfa, 0x2465d2b0fe9d)
    case 4 => FromText(0x093e0fae, 0xa6c4, 0x4f50, 0x9f1b, 0xd41e2b89c19a)
    case 5 => FromText(0x7076876e, 0x80c2, 0x4ee6, 0xaad2, 0x28b349a6865b)
    case 6 => FromText(0x0b6e5233, 0xa65c, 0x44c9, 0x9407, 0xd9ab83bfc8bd)
    case 7 => FromText(0xff3e5307, 0x9fd0, 0x48c9, 0x85f1, 0x8ad56c701e01)
    case 8 => FromText(0x826ca512, 0xcf10, 0x4ac9, 0xb187, 0xbe01496631bd)
    case 9 => FromText(0x3c5766e8, 0x269c, 0x4e34, 0xaa14, 0xed776e85b3b6)
    case 10 => FromText(0x67f8444f, 0x8743, 0x48f1, 0xa328, 0x1eaab8736080)
    case _ => FromText(0xe2b36190, 0x879b, 0x4a3d, 0xad8d, 0xf2e7bba32784)
  }

  function TypeFrom(g: Guid, i: nat): (t: int)
    requires i <= TYPE_MAX
    ensures t == -1 || (i <= t < TYPE_MAX && TypeGuid(t) == g)
    decreases TYPE_MAX - i
  {
    if i == TYPE_MAX then -1 else if TypeGuid(i) == g then i else TypeFrom(g, i + 1)
  }

  /** secdb_entry_type_from_guid: the first table row with this GUID, or -1. */
  function TypeOf(g: Guid): (t: int)
    ensures t == -1 || (0 <= t < TYPE_MAX && TypeGuid(t) == g)
  {
    TypeFrom(g, 0)
  }

  lemma TypeGuidsDiffer(a: nat, b: nat)
    requires a < TYPE_MAX && b < TYPE_MAX && TypeGuid(a) == TypeGuid(b)
    ensures a == b
  {
    hide FromText;
    FirstBytes();
    assert TypeGuid(a)[0] == TypeGuid(b)[0];
  }

  lemma FirstBytes()
    ensures forall a: nat, b: nat, c: nat, d: nat, e: nat :: FromText(a, b, c, d, e)[0] == a % 256
  {
  }

  lemma {:induction false} TypeFromFinds(a: nat, i: nat)
    requires i <= a < TYPE_MAX
    ensures TypeFrom(TypeGuid(a), i) == a
    decreases a - i
  {
    hide TypeGuid;
    if TypeGuid(i) == TypeGuid(a) {
      TypeGuidsDiffer(i, a);
    } else {
      TypeFromFinds(a, i + 1);
    }
  }

  lemma TypeRoundTrip(a: nat)
    requires a < TYPE_MAX
    ensures TypeOf(TypeGuid(a)) == a
  {
    TypeFromFinds(a, 0);
  }

  /** The types whose table size is the size of their data. */
  predicate Sized(alg: nat) {
    alg in {SHA1, SHA224, SHA256, SHA384, SHA512, RSA2048, RSA2048_SHA1, RSA2048_SHA256}
  }

  /** Hash lists hold digests of 160 to 512 bits, and RSA lists moduli of 2048. */
  lemma TableSizes()
    ensures 8 * TableSize(SHA1) == 160 && 8 * TableSize(SHA224) == 224 && 8 * TableSize(SHA256) == 256
    ensures 8 * TableSize(SHA384) == 384 && 8 * TableSize(SHA512) == 512
    ensures 8 * TableSize(RSA2048) == 8 * TableSize(RSA2048_SHA1) == 8 * TableSize(RSA2048_SHA256) == 2048
    ensures Sized(SHA1) && Sized(SHA224) && Sized(SHA256) && Sized(SHA384) && Sized(SHA512)
    ensures Sized(RSA2048) && Sized(RSA2048_SHA1) && Sized(RSA2048_SHA256)
  {
  }

  // ---------- the state ----------

  datatype Flags = Flags(sort: bool, sortData: bool, descending: bool)

  /** One efi_secdb below the top: `listsz` and `nsigs` are never decreased. */
  datatype SigList = SigList(
    algorithm: nat, sigsz: nat, nsigs: nat, listsz: nat, flags: Flags, entries: seq<Entry>)

  // ---------- finding a list ----------

  predicate Matches(l: SigList, alg: nat, want: nat) {
    l.listsz == 0 || l.algorithm == TYPE_MAX || (l.algorithm == alg && l.sigsz == want)
  }

  /** The size find_secdb_entry looks for. */
  function Wanted(alg: nat, datasz: nat): (n: nat)
    requires alg < TYPE_MAX
  {
    if alg == X509_CERT then datasz + 16 else EntrySize(alg)
  }

  /** The last match among the first `n` lists. */
  function FindFrom(lists: seq<SigList>, n: nat, alg: nat, want: nat): (k: Option<nat>)
    requires n <= |lists|
    ensures k.Some? ==> k.value < n && Matches(lists[k.value], alg, want)
    ensures k.None? ==> forall i :: 0 <= i < n ==> !Matches(lists[i], alg, want)
  {
    if n == 0 then None
    else if Matches(lists[n - 1], alg, want) then Some(n - 1)
    else FindFrom(lists, n - 1, alg, want)
  }

  function Find(lists: seq<SigList>, alg: nat, datasz: nat): (k: Option<nat>)
    requires alg < TYPE_MAX
    ensures k.Some? ==> k.value < |lists| && Matches(lists[k.value], alg, Wanted(alg, datasz))
    ensures k.None? ==> forall i :: 0 <= i < |lists| ==> !Matches(lists[i], alg, Wanted(alg, datasz))
  {
    FindFrom(lists, |lists|, alg, Wanted(alg, datasz))
  }

  // ---------- adding ----------

  function NewList(flags: Flags, alg: nat, sigsz: nat): (l: SigList) {
    SigList(alg, U32(sigsz), 0, 0, flags, [])
  }

  /** The size a list found or allocated without force is given. */
  function GivenSize(alg: nat, sigsz: nat): (n: nat)
    requires alg < TYPE_MAX
  {
    U32(if alg == X509_CERT then sigsz else EntrySize(alg))
  }

  /** The lists, and the index of the one an entry goes to; the search is made with a size that already
      includes the owner. */
  function Select(flags: Flags, lists: seq<SigList>, alg: nat, sigsz: nat, force: bool): (r: (seq<SigList>, nat))
    requires alg < TYPE_MAX
    ensures r.1 < |r.0|
  {
    if force then
      (lists + [NewList(flags, alg, sigsz)], |lists|)
    else match Find(lists, alg, sigsz)
      case Some(k) => (lists[k := lists[k].(algorithm := alg, sigsz := GivenSize(alg, sigsz))], k)
      case None => (lists + [NewList(flags, alg, GivenSize(alg, sigsz))], |lists|)
  }

  /** memcmp of the new data with the start of a stored entry's. */
  predicate SameData(data: seq<byte>, e: Entry, n: nat) {
    n <= |data| && n <= |e.data| && data[..n] == e.data[..n]
  }

  /** A comparison of `n` bytes that leaves the new data or the stored ones. */
  predicate Overreads(data: seq<byte>, e: Entry, n: nat) {
    n > |data| || n > |e.data|
  }

  /** The search for a duplicate, from entry `i` on, comes to such a comparison. */
  predicate AddOverreads(es: seq<Entry>, i: nat, data: seq<byte>)
    requires i <= |es|
    decreases |es| - i
  {
    i < |es| && (Overreads(data, es[i], |data|) || (!SameData(data, es[i], |data|) && AddOverreads(es, i + 1, data)))
  }

  lemma {:induction false} NoAddOverread(es: seq<Entry>, i: nat, data: seq<byte>)
    requires i <= |es| && forall e :: e in es ==> |data| <= |e.data|
    ensures !AddOverreads(es, i, data)
    decreases |es| - i
  {
    if i < |es| {
      assert es[i] in es;
      NoAddOverread(es, i + 1, data);
    }
  }

  predicate Duplicate(l: SigList, data: seq<byte>) {
    exists i :: 0 <= i < |l.entries| && SameData(data, l.entries[i], |data|)
  }

  /** secdb_add_entry_data. */
  function Appended(l: SigList, owner: Guid, data: seq<byte>): (l': SigList) {
    if data == [] then l
    else
      var n := l.nsigs + 1;
      var sz := if n == 1 && l.algorithm == X509_CERT && l.sigsz == 16 then U32(l.sigsz + |data|) else l.sigsz;
      l.(entries := l.entries + [Entry(owner, data)], nsigs := n, sigsz := sz, listsz := U32(28 + sz * n))
  }

  function Key(e: Entry, sz: nat): (s: seq<byte>) {
    Display(e.owner) + if sz <= |e.data| then e.data[..sz] else e.data
  }

  /** The order of secdb_entry_cmp and its descending wrapper. */
  function EntryOrder(sz: nat, descending: bool): (cmp: (Entry, Entry) -> int) {
    (a, b) => if descending then Lex(Key(b, sz), Key(a, sz)) else Lex(Key(a, sz), Key(b, sz))
  }

  /** secdb_cmp, differences of 32-bit fields taken as int. */
  function SecdbCmp(a: SigList, b: SigList): (r: int) {
    if a.algorithm == TYPE_MAX then -1
    else if b.algorithm == TYPE_MAX then 1
    else if a.algorithm != b.algorithm then a.algorithm - b.algorithm
    else if a.sigsz != b.sigsz then Int32(a.sigsz - b.sigsz)
    else Int32(a.listsz - b.listsz)
  }

  function ListOrder(descending: bool): (cmp: (SigList, SigList) -> int) {
    (a, b) => if descending then SecdbCmp(b, a) else SecdbCmp(a, b)
  }

  ghost predicate EntriesSorted(l: SigList, sz: nat, es: seq<Entry>) {
    if l.flags.sortData && l.sigsz != 0 then SortOf(es, l.entries, EntryOrder(sz, l.flags.descending))
    else es == l.entries
  }

  ghost predicate ListsSorted(flags: Flags, lists: seq<SigList>, lists': seq<SigList>) {
    if flags.sort then SortOf(lists', lists, ListOrder(flags.descending)) else lists' == lists
  }

  /** The lists with `k` extended by an entry whose list has been sorted into `es`. */
  function Extended(lists: seq<SigList>, k: nat, owner: Guid, data: seq<byte>, es: seq<Entry>): (r: seq<SigList>)
    requires k < |lists|
    ensures |r| == |lists|
  {
    lists[k := Appended(lists[k], owner, data).(entries := es)]
  }

  /** What efi_secdb_add_entry_or_secdb may leave behind; sorting is governed by the flags of the list. */
  ghost predicate AddPost(
    flags: Flags, lists: seq<SigList>, owner: Guid, alg: nat, data: seq<byte>, force: bool, lists': seq<SigList>)
    requires alg < TYPE_MAX
  {
    var (ls, k) := Select(flags, lists, alg, |data| + 16, force);
    if Duplicate(ls[k], data) then lists' == ls
    else exists es ::
      && EntriesSorted(Appended(ls[k], owner, data), |data|, es)
      && ListsSorted(ls[k].flags, Extended(ls, k, owner, data, es), lists')
  }

  /** An addition whose search for a duplicate leaves the stored bytes. */
  predicate AddOver(flags: Flags, lists: seq<SigList>, alg: nat, data: seq<byte>, force: bool)
    requires alg < TYPE_MAX
  {
    var (ls, k) := Select(flags, lists, alg, |data| + 16, force);
    AddOverreads(ls[k].entries, 0, data)
  }

  // The pieces of AddPost, one at a time.

  lemma AppendedFlags(l: SigList, owner: Guid, data: seq<byte>)
    ensures Appended(l, owner, data).flags == l.flags
  {
  }

  lemma ExtendedIs(lists: seq<SigList>, k: nat, owner: Guid, data: seq<byte>, es: seq<Entry>)
    requires k < |lists|
    ensures Extended(lists, k, owner, data, es) == lists[k := Appended(lists[k], owner, data).(entries := es)]
  {
  }

  // ---------- deleting ----------

  function FirstMatch(es: seq<Entry>, i: nat, owner: Guid, data: seq<byte>, n: nat): (k: nat)
    requires i <= |es|
    ensures i <= k <= |es|
    ensures k < |es| ==> SameData(data, es[k], n) && es[k].owner == owner
    ensures forall j :: i <= j < k ==> !(SameData(data, es[j], n) && es[j].owner == owner)
    decreases |es| - i
  {
    if i == |es| || (SameData(data, es[i], n) && es[i].owner == owner) then i
    else FirstMatch(es, i + 1, owner, data, n)
  }

  function Without(es: seq<Entry>, k: nat): (r: seq<Entry>) {
    if k < |es| then es[..k] + es[k + 1..] else es
  }

  /** How many bytes efi_secdb_del_entry compares. */
  function ComparedSize(alg: nat, datasz: nat): (n: nat)
    requires alg < TYPE_MAX
  {
    ((if alg == X509_CERT then datasz else EntrySize(alg)) - 16) % TWO64
  }

  /** The search for the entry to delete, from entry `i` on, comes to a comparison that leaves the data. */
  predicate DelOverreads(es: seq<Entry>, i: nat, owner: Guid, data: seq<byte>, n: nat)
    requires i <= |es|
    decreases |es| - i
  {
    && i < |es|
    && (Overreads(data, es[i], n)
        || (!(SameData(data, es[i], n) && es[i].owner == owner) && DelOverreads(es, i + 1, owner, data, n)))
  }

  lemma {:induction false} NoDelOverread(es: seq<Entry>, i: nat, owner: Guid, data: seq<byte>, n: nat)
    requires i <= |es| && n <= |data| && forall e :: e in es ==> n <= |e.data|
    ensures !DelOverreads(es, i, owner, data, n)
    decreases |es| - i
  {
    if i < |es| {
      assert es[i] in es;
      NoDelOverread(es, i + 1, owner, data, n);
    }
  }

  predicate DelOver(lists: seq<SigList>, owner: Guid, alg: nat, data: seq<byte>)
    requires alg < TYPE_MAX
  {
    match Find(lists, alg, |data|)
    case None => false
    case Some(k) => DelOverreads(lists[k].entries, 0, owner, data, ComparedSize(alg, |data|))
  }

  function DelPost(lists: seq<SigList>, owner: Guid, alg: nat, data: seq<byte>): (r: seq<SigList>)
    requires alg < TYPE_MAX
  {
    match Find(lists, alg, |data|)
    case None => lists
    case Some(k) =>
      var es := lists[k].entries;
      lists[k := lists[k].(entries := Without(es, FirstMatch(es, 0, owner, data, ComparedSize(alg, |data|))))]
  }

  // ---------- the engine ----------

  method EntryCompare(a: Entry, b: Entry, sz: nat) returns (r: int)
    requires sz <= |a.data| && sz <= |b.data|
    ensures SameSign(r, EntryOrder(sz, false)(a, b))
  {
    hide Lex, Display;
    LexConcat(Display(a.owner), Display(b.owner), a.data[..sz], b.data[..sz]);
    LexZero(Display(a.owner), Display(b.owner));
    r := GuidCmp(a.owner, b.owner);
    if r != 0 {
      return;
    }
    r := ByteCmp(a.data, b.data, sz);
  }

  /** The search for a duplicate: its index, or the number of entries. */
  method FindDuplicate(es: seq<Entry>, data: seq<byte>) returns (i: nat, overread: bool)
    ensures i <= |es| && overread == AddOverreads(es, 0, data)
    ensures !overread && i < |es| ==> SameData(data, es[i], |data|)
    ensures !overread && i == |es| ==> forall j :: 0 <= j < |es| ==> !SameData(data, es[j], |data|)
  {
    hide Overreads, SameData;
    i := 0;
    while i < |es|
      invariant 0 <= i <= |es|
      invariant AddOverreads(es, 0, data) == AddOverreads(es, i, data)
      invariant forall j :: 0 <= j < i ==> !SameData(data, es[j], |data|)
    {
      if Overreads(data, es[i], |data|) {
        return i, true;
      }
      if SameData(data, es[i], |data|) {
        return i, false;
      }
      i := i + 1;
    }
    return i, false;
  }

  class Database {
    var flags: Flags
    var lists: seq<SigList>

    constructor ()
      ensures flags == Flags(true, false, false) && lists == []
    {
      flags := Flags(true, false, false);
      lists := [];
    }

    method SetBool(flag: int, value: bool) returns (rc: int)
      modifies this`flags
      ensures rc == if 0 <= flag <= 2 then 0 else -1
      ensures flags.sort == if flag == 0 then value else old(flags).sort
      ensures flags.sortData == if flag == 1 then value else old(flags).sortData
      ensures flags.descending == if flag == 2 then value else old(flags).descending
    {
      if flag < 0 || flag > 2 {
        return -1;
      }
      if flag == 0 {
        flags := flags.(sort := value);
      } else if flag == 1 {
        flags := flags.(sortData := value);
      } else {
        flags := flags.(descending := value);
      }
      return 0;
    }

    method FindEntry(alg: nat, datasz: nat) returns (k: Option<nat>)
      requires alg < TYPE_MAX
      ensures k == Find(lists, alg, datasz)
    {
      var want := datasz + 16;
      if alg != X509_CERT {
        want := EntrySize(alg);
      }
      var n := |lists|;
      while n > 0
        invariant 0 <= n <= |lists|
        invariant Find(lists, alg, datasz) == FindFrom(lists, n, alg, want)
      {
        if Matches(lists[n - 1], alg, want) {
          return Some(n - 1);
        }
        n := n - 1;
      }
      return None;
    }

    /** find_or_alloc_secdb_entry, or a forced allocation. */
    method SelectList(alg: nat, sigsz: nat, force: bool) returns (k: nat)
      requires alg < TYPE_MAX
      modifies this`lists
      ensures (lists, k) == Select(flags, old(lists), alg, sigsz, force)
    {
      if force {
        k := |lists|;
        lists := lists + [NewList(flags, alg, sigsz)];
        return;
      }
      var found := FindEntry(alg, sigsz);
      if found.None? {
        k := |lists|;
        lists := lists + [NewList(flags, alg, GivenSize(alg, sigsz))];
      } else {
        k := found.value;
        lists := lists[k := lists[k].(algorithm := alg, sigsz := GivenSize(alg, sigsz))];
      }
    }

    /** efi_secdb_add_entry_or_secdb. `overread` reports a comparison that leaves the stored bytes, after which nothing
        more is known; the list has been selected by then. */
    method AddEntryOrList(owner: Guid, alg: int, data: seq<byte>, force: bool) returns (rc: int, overread: bool)
      modifies this`lists
      ensures !(0 <= alg < TYPE_MAX) ==> rc == -1 && !overread && lists == old(lists)
      ensures 0 <= alg < TYPE_MAX ==> overread == AddOver(flags, old(lists), alg, data, force)
      ensures 0 <= alg < TYPE_MAX && overread ==> lists == Select(flags, old(lists), alg, |data| + 16, force).0
      ensures 0 <= alg < TYPE_MAX && !overread ==>
        rc == 0 && AddPost(flags, old(lists), owner, alg, data, force, lists)
    {
      if !(0 <= alg < TYPE_MAX) {
        return -1, false;
      }
      hide *;
      var k := SelectList(alg, |data| + 16, force);
      ghost var ls := lists;
      var l := lists[k];
      AddOverIs(flags, old(lists), alg, data, force);
      var i;
      i, overread := FindDuplicate(l.entries, data);
      if overread {
        return 0, true;
      }
      if i < |l.entries| {
        DuplicateLeaves(flags, old(lists), owner, alg, data, force, i);
        return 0, false;
      }
      var l' := Appended(l, owner, data);
      AppendedFlags(l, owner, data);
      var es := l'.entries;
      if l.flags.sortData && l'.sigsz != 0 {
        es := QSort(es, EntryOrder(|data|, l.flags.descending));
      }
      lists := lists[k := l'.(entries := es)];
      ExtendedIs(ls, k, owner, data, es);
      ghost var unsorted := lists;
      if l.flags.sort {
        lists := QSort(lists, ListOrder(l.flags.descending));
      }
      return 0, false;
    }

    /** efi_secdb_del_entry; `overread` as for an addition. */
    method DelEntry(owner: Guid, alg: int, data: seq<byte>) returns (rc: int, overread: bool)
      modifies this`lists
      ensures overread <==> 0 <= alg < TYPE_MAX && data != [] && DelOver(old(lists), owner, alg, data)
      ensures overread ==> lists == old(lists)
      ensures !overread ==> (rc == 0 <==> 0 <= alg < TYPE_MAX && data != [] && Find(old(lists), alg, |data|).Some?)
      ensures rc == 0 || rc == -1
      ensures !overread ==>
        lists == if 0 <= alg < TYPE_MAX && data != [] then DelPost(old(lists), owner, alg, data) else old(lists)
    {
      if !(0 <= alg < TYPE_MAX) || data == [] {
        return -1, false;
      }
      var found := FindEntry(alg, |data|);
      if found.None? {
        return -1, false;
      }
      var es := lists[found.value].entries;
      var n := ComparedSize(alg, |data|);
      var i := 0;
      hide ComparedSize, Find, SameData;
      while i < |es|
        invariant 0 <= i <= |es|
        invariant FirstMatch(es, 0, owner, data, n) == FirstMatch(es, i, owner, data, n)
        invariant DelOverreads(es, 0, owner, data, n) == DelOverreads(es, i, owner, data, n)
      {
        if Overreads(data, es[i], n) {
          return 0, true;
        }
        if SameData(data, es[i], n) && owner == es[i].owner {
          break;
        }
        i := i + 1;
      }
      lists := lists[found.value := lists[found.value].(entries := Without(es, i))];
      return 0, false;
    }
  }

  /** A list that holds a shorter value: the comparison with it leaves its bytes. */
  lemma ShortEntryOverread(flags: Flags, owner: Guid, short: seq<byte>, data: seq<byte>)
    requires |short| < |data|
    ensures AddOver(flags, [SigList(SHA256, 48, 1, 76, flags, [Entry(owner, short)])], SHA256, data, false)
  {
    var l := SigList(SHA256, 48, 1, 76, flags, [Entry(owner, short)]);
    assert Matches([l][0], SHA256, 48);
    assert Find([l], SHA256, |data| + 16) == Some(0);
    hide Find;
    AddOverIs(flags, [l], SHA256, data, false);
  }

  lemma AddOverIs(flags: Flags, lists: seq<SigList>, alg: nat, data: seq<byte>, force: bool)
    requires alg < TYPE_MAX
    ensures var (ls, k) := Select(flags, lists, alg, |data| + 16, force);
      AddOver(flags, lists, alg, data, force) == AddOverreads(ls[k].entries, 0, data)
  {
    hide Select, AddOverreads;
  }

  /** An addition that found its data absent, or present. */
  lemma AddLeaves(
      flags: Flags, lists: seq<SigList>, owner: Guid, alg: nat, data: seq<byte>, force: bool, ls: seq<SigList>, k: nat,
      es: seq<Entry>, lists': seq<SigList>)
    requires alg < TYPE_MAX && (ls, k) == Select(flags, lists, alg, |data| + 16, force)
    requires if Duplicate(ls[k], data) then lists' == ls
             else EntriesSorted(Appended(ls[k], owner, data), |data|, es)
                  && ListsSorted(ls[k].flags, Extended(ls, k, owner, data, es), lists')
    ensures AddPost(flags, lists, owner, alg, data, force, lists')
  {
    hide Select, Duplicate, EntriesSorted, ListsSorted, Extended, Appended;
  }

  lemma DuplicateLeaves(
      flags: Flags, lists: seq<SigList>, owner: Guid, alg: nat, data: seq<byte>, force: bool, i: nat)
    requires alg < TYPE_MAX
    requires var (ls, k) := Select(flags, lists, alg, |data| + 16, force);
             i < |ls[k].entries| && SameData(data, ls[k].entries[i], |data|)
    ensures AddPost(flags, lists, owner, alg, data, force, Select(flags, lists, alg, |data| + 16, force).0)
  {
    hide Select, SameData;
  }

  // ---------- certificates ----------

  /** A list with one certificate. */
  function CertList(flags: Flags, owner: Guid, cert: seq<byte>): (l: SigList) {
    SigList(X509_CERT, 16 + |cert|, 1, 44 + |cert|, flags, [Entry(owner, cert)])
  }

  /** An addition takes it for the list of certificates that are sixteen bytes shorter, so that certificates of one size do
      not share a list. */
  lemma CertificatesApart(flags: Flags, owner: Guid, cert: seq<byte>, data: seq<byte>)
    ensures Find([CertList(flags, owner, cert)], X509_CERT, |data| + 16).Some? <==> |data| + 16 == |cert|
  {
  }

  /** A deletion compares all but the last sixteen bytes: with one owner it takes a certificate for any other that agrees
      with it before those. */
  lemma DeletesAlike(flags: Flags, owner: Guid, cert: seq<byte>, data: seq<byte>)
    requires 16 <= |data| == |cert| < TWO64 && data[..|data| - 16] == cert[..|cert| - 16]
    ensures var l := CertList(flags, owner, cert);
      DelPost([l], owner, X509_CERT, data) == [l.(entries := [])]
  {
    var l := CertList(flags, owner, cert);
    assert Matches([l][0], X509_CERT, |data| + 16);
    assert Find([l], X509_CERT, |data|) == Some(0);
    var es, n := l.entries, |data| - 16;
    assert ComparedSize(X509_CERT, |data|) == n;
    assert SameData(data, es[0], n);
    assert FirstMatch(es, 0, owner, data, n) == 0;
    assert Without(es, 0) == [];
  }
}
