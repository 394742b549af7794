/**
  With sorting off, parsing a file into an empty database and realising it gives the file back, without its lists of
  one empty entry.
 */
module SecDbRoundTrip {
  import opened Bytes
  import opened EslIter
  import opened Guids
  import opened Sorting
  import opened SecDb
  import opened SecDbFile
  import opened SecDbRuns

  /** A list that gets a list of its own: hashes or RSA-2048 values with pairwise distinct data, or a single entry of
      any known type. */
  ghost predicate Kept(l: Esl) {
    var t := TypeOf(l.kind);
    && WellFormed(l) && t != -1
    && ((Sized(t) && |l.entries[0].data| == TableSize(t) && DistinctBy(l.entries, DataOf)) || |l.entries| == 1)
  }

  /** The size field of a list of `n` entries. */
  function SizeField(size: nat, n: nat): (r: nat) { U32(28 + size * n) }

  /** The list in memory after `j` entries of `l`. */
  function ListOf(flags: Flags, l: Esl, j: nat): (r: SigList)
    requires WellFormed(l) && TypeOf(l.kind) != -1 && j <= |l.entries|
  {
    SigList(TypeOf(l.kind), Size(l), j, SizeField(Size(l), j), flags, l.entries[..j])
  }

  /** An entry without data is not stored, so the list stays empty. */
  predicate Empty(l: Esl) {
    l.entries != [] && l.entries[0].data == []
  }

  function Held(flags: Flags, l: Esl, j: nat): (r: SigList)
    requires WellFormed(l) && TypeOf(l.kind) != -1 && j <= |l.entries|
  {
    if Empty(l) then NewList(flags, TypeOf(l.kind), 16) else ListOf(flags, l, j)
  }

  function Unsorted(d: bool): (f: Flags) { Flags(false, false, d) }

  /** Without sorting, an addition is a function of the lists. */
  lemma AddUnsorted(
      d: bool, lists: seq<SigList>, owner: Guid, alg: nat, data: seq<byte>, force: bool, lists': seq<SigList>)
    requires alg < TYPE_MAX && AddPost(Unsorted(d), lists, owner, alg, data, force, lists')
    requires var (ls, k) := Select(Unsorted(d), lists, alg, |data| + 16, force);
             ls[k].flags == Unsorted(d) && !Duplicate(ls[k], data)
    ensures var (ls, k) := Select(Unsorted(d), lists, alg, |data| + 16, force);
            lists' == ls[k := Appended(ls[k], owner, data)]
  {
    hide Select, Duplicate, Appended;
    var (ls, k) := Select(Unsorted(d), lists, alg, |data| + 16, force);
    AppendedFlags(ls[k], owner, data);
    var es :| EntriesSorted(Appended(ls[k], owner, data), |data|, es)
           && ListsSorted(ls[k].flags, Extended(ls, k, owner, data, es), lists');
  }

  lemma SelectsNew(d: bool, lists: seq<SigList>, alg: nat, sz: nat)
    requires alg < TYPE_MAX
    ensures Select(Unsorted(d), lists, alg, sz, true) == (lists + [NewList(Unsorted(d), alg, sz)], |lists|)
    ensures forall data :: !Duplicate(NewList(Unsorted(d), alg, sz), data)
    ensures NewList(Unsorted(d), alg, sz).flags == Unsorted(d)
  {
  }

  lemma AppendsFirst(flags: Flags, l: Esl)
    requires WellFormed(l) && TypeOf(l.kind) != -1 && l.entries[0].data != [] && Size(l) < TWO32
    ensures Appended(NewList(flags, TypeOf(l.kind), |l.entries[0].data| + 16), l.entries[0].owner, l.entries[0].data)
         == ListOf(flags, l, 1)
  {
    hide TypeFrom;
    assert l.entries[..1] == [] + [l.entries[0]];
  }

  lemma AddFirst(d: bool, lists: seq<SigList>, l: Esl, lists': seq<SigList>)
    requires l.entries != [] && WellFormed(l) && TypeOf(l.kind) != -1 && l.entries[0].data != [] && Size(l) < TWO32
    requires AddPost(Unsorted(d), lists, l.entries[0].owner, TypeOf(l.kind), l.entries[0].data, true, lists')
    ensures lists' == lists + [ListOf(Unsorted(d), l, 1)]
  {
    hide *;
    var e, t := l.entries[0], TypeOf(l.kind);
    var x := NewList(Unsorted(d), t, |e.data| + 16);
    SelectsNew(d, lists, t, |e.data| + 16);
    AddUnsorted(d, lists, e.owner, t, e.data, true, lists');
    AppendsFirst(Unsorted(d), l);
    assert (lists + [x])[|lists| := ListOf(Unsorted(d), l, 1)] == lists + [ListOf(Unsorted(d), l, 1)];
  }

  lemma AddNothing(d: bool, lists: seq<SigList>, owner: Guid, alg: nat, lists': seq<SigList>)
    requires alg < TYPE_MAX && AddPost(Unsorted(d), lists, owner, alg, [], true, lists')
    ensures lists' == lists + [NewList(Unsorted(d), alg, 16)]
  {
    hide *;
    var x := NewList(Unsorted(d), alg, 16);
    SelectsNew(d, lists, alg, 16);
    AddUnsorted(d, lists, owner, alg, [], true, lists');
    AppendsNothing(x, owner);
    assert (lists + [x])[|lists| := x] == lists + [x];
  }

  lemma AppendsNothing(l: SigList, owner: Guid)
    ensures Appended(l, owner, []) == l
  {
  }

  lemma FindsLast(d: bool, pre: seq<SigList>, l: SigList, alg: nat, sz: nat)
    requires Sized(alg) && l.algorithm == alg && l.sigsz == EntrySize(alg)
    ensures Select(Unsorted(d), pre + [l], alg, sz, false) == (pre + [l], |pre|)
  {
    var lists := pre + [l];
    assert Matches(lists[|pre|], alg, EntrySize(alg));
    SizedNotEmpty(alg);
    assert Find(lists, alg, sz) == Some(|pre|);
    hide TableSize, Find, Matches;
    assert lists[|pre| := l.(algorithm := alg, sigsz := EntrySize(alg))] == lists;
  }

  lemma NotDuplicate(es: seq<Entry>, j: nat, l: SigList)
    requires j < |es| && l.entries == es[..j] && DistinctBy(es, DataOf)
    requires forall e :: e in es ==> |e.data| == |es[j].data|
    ensures !Duplicate(l, es[j].data)
  {
    forall i | 0 <= i < j ensures !SameData(es[j].data, l.entries[i], |es[j].data|) {
      assert DataOf(es[i]) != DataOf(es[j]);
      assert es[i] in es;
    }
  }

  lemma {:induction false} AppendsNext(flags: Flags, l: Esl, j: nat)
    requires WellFormed(l) && TypeOf(l.kind) > 0 && 0 < j < |l.entries| && l.entries[j].data != []
    ensures Appended(ListOf(flags, l, j), l.entries[j].owner, l.entries[j].data) == ListOf(flags, l, j + 1)
  {
    hide *;
    var e, es := l.entries[j], l.entries;
    ListOfIs(flags, l, j);
    ListOfIs(flags, l, j + 1);
    NextEntry(ListOf(flags, l, j), e);
    assert es[..j + 1] == es[..j] + [e];
  }

  lemma {:induction false} ListOfIs(flags: Flags, l: Esl, j: nat)
    requires WellFormed(l) && TypeOf(l.kind) != -1 && j <= |l.entries|
    ensures ListOf(flags, l, j) == SigList(TypeOf(l.kind), Size(l), j, SizeField(Size(l), j), flags, l.entries[..j])
  {
    hide TypeOf, WellFormed, Size;
  }

  lemma NextEntry(x: SigList, e: Entry)
    requires x.algorithm > 0 && e.data != []
    ensures Appended(x, e.owner, e.data) ==
      SigList(x.algorithm, x.sigsz, x.nsigs + 1, SizeField(x.sigsz, x.nsigs + 1), x.flags, x.entries + [e])
  {
    hide Appended;
    AppendedIs(x, e.owner, e.data);
  }

  lemma AddNext(d: bool, pre: seq<SigList>, l: Esl, j: nat, lists': seq<SigList>)
    requires Kept(l) && 0 < j < |l.entries|
    requires AddPost(Unsorted(d), pre + [ListOf(Unsorted(d), l, j)], l.entries[j].owner, TypeOf(l.kind),
                     l.entries[j].data, false, lists')
    ensures lists' == pre + [ListOf(Unsorted(d), l, j + 1)]
  {
    hide TypeOf;
    var t, x, e := TypeOf(l.kind), ListOf(Unsorted(d), l, j), l.entries[j];
    SizedNotEmpty(t);
    assert e in l.entries;
    FindsLast(d, pre, x, t, |e.data| + 16);
    NotDuplicate(l.entries, j, x);
    hide Select, Duplicate, TableSize, DistinctBy;
    AddUnsorted(d, pre + [x], e.owner, t, e.data, false, lists');
    AppendsNext(Unsorted(d), l, j);
    hide Appended, ListOf;
    assert (pre + [x])[|pre| := ListOf(Unsorted(d), l, j + 1)] == pre + [ListOf(Unsorted(d), l, j + 1)];
  }

  function FetchedOf(l: Esl, j: nat): (f: Fetched)
    requires j < |l.entries|
  {
    Fetched(j == 0, l.kind, l.entries[j].owner, l.entries[j].data, false)
  }

  lemma FetchedAddsPost(d: bool, lists: seq<SigList>, l: Esl, j: nat, lists': seq<SigList>)
    requires j < |l.entries| && TypeOf(l.kind) != -1
    requires AddFetched(Unsorted(d), lists, FetchedOf(l, j), lists')
    ensures AddPost(Unsorted(d), lists, l.entries[j].owner, TypeOf(l.kind), l.entries[j].data, j == 0, lists')
  {
    hide AddPost, TypeOf;
  }

  /** The first `j` entries of a list, taken in turn, build one new list. */
  lemma {:induction false} AddsList(d: bool, lists: seq<SigList>, l: Esl, j: nat, fs: seq<Fetched>, lists': seq<SigList>)
    requires Kept(l) && Size(l) < TWO32 && 0 < j <= |l.entries| && |fs| == j
    requires forall i :: 0 <= i < j ==> fs[i] == FetchedOf(l, i)
    requires AddAll(Unsorted(d), lists, fs, lists')
    ensures lists' == lists + [Held(Unsorted(d), l, j)]
    decreases j
  {
    hide *;
    KeptIs(l);
    HeldIs(Unsorted(d), l, j);
    var mid := AddAllLast(Unsorted(d), lists, fs, lists');
    FetchedAddsPost(d, mid, l, j - 1, lists');
    if j == 1 {
      AddAllEmpty(Unsorted(d), lists, fs[..j - 1], mid);
      if Empty(l) {
        AddNothing(d, lists, l.entries[0].owner, TypeOf(l.kind), lists');
      } else {
        AddFirst(d, lists, l, lists');
      }
    } else {
      HeldIs(Unsorted(d), l, j - 1);
      AddsList(d, lists, l, j - 1, fs[..j - 1], mid);
      AddNext(d, lists, l, j - 1, lists');
    }
  }

  lemma {:induction false} HeldIs(flags: Flags, l: Esl, j: nat)
    requires WellFormed(l) && TypeOf(l.kind) != -1 && j <= |l.entries|
    ensures Empty(l) ==> Held(flags, l, j) == NewList(flags, TypeOf(l.kind), 16) && l.entries[0].data == []
    ensures !Empty(l) ==> Held(flags, l, j) == ListOf(flags, l, j) && (l.entries != [] ==> l.entries[0].data != [])
  {
    hide ListOf, TypeOf, WellFormed;
  }

  lemma AddAllEmpty(flags: Flags, lists: seq<SigList>, fs: seq<Fetched>, lists': seq<SigList>)
    requires fs == [] && AddAll(flags, lists, fs, lists')
    ensures lists' == lists
  {
  }

  /** Additions can be cut anywhere. */
  lemma {:induction false} AddAllSplit(
      flags: Flags, lists: seq<SigList>, fs: seq<Fetched>, gs: seq<Fetched>, lists': seq<SigList>)
      returns (mid: seq<SigList>)
    requires AddAll(flags, lists, fs + gs, lists')
    ensures AddAll(flags, lists, fs, mid) && AddAll(flags, mid, gs, lists')
    decreases |gs|
  {
    hide *;
    if gs == [] {
      assert fs + gs == fs;
      mid := lists';
      AddNone(flags, mid);
    } else {
      var k := |gs| - 1;
      var all := fs + gs;
      assert all[..|all| - 1] == fs + gs[..k] && all[|all| - 1] == gs[k];
      var last := AddAllLast(flags, lists, all, lists');
      mid := AddAllSplit(flags, lists, fs, gs[..k], last);
      AddAllStep(flags, mid, gs[..k], last, gs[k], lists');
      assert gs == gs[..k] + [gs[k]];
    }
  }

  lemma AddsNothing(flags: Flags, lists: seq<SigList>, lists': seq<SigList>)
    requires AddAll(flags, lists, Contents([]), lists')
    ensures lists' == lists
  {
    assert Contents([]) == [];
  }

  function ListsOf(flags: Flags, file: seq<Esl>): (ls: seq<SigList>)
    requires forall l :: l in file ==> WellFormed(l) && TypeOf(l.kind) != -1
    ensures |ls| == |file|
    ensures forall i :: 0 <= i < |file| ==> ls[i] == Held(flags, file[i], |file[i].entries|)
  {
    seq(|file|, i requires 0 <= i < |file| => Held(flags, file[i], |file[i].entries|))
  }

  lemma ContentsSplit(file: seq<Esl>)
    requires file != []
    ensures |Contents(file)| == |file[0].entries| + |Contents(file[1..])|
    ensures Contents(file) == Contents(file)[..|file[0].entries|] + Contents(file[1..])
    ensures forall i :: 0 <= i < |file[0].entries| ==> Contents(file)[i] == FetchedOf(file[0], i)
  {
    ItemsAreItems(file);
    ItemsAreItems(file[1..]);
    assert Items(file) == ItemsOf(file[0]) + Items(file[1..]);
    hide Items;
    assert Contents(file)[|file[0].entries|..] == Contents(file[1..]);
  }

  lemma KeptIs(l: Esl)
    requires Kept(l)
    ensures WellFormed(l) && TypeOf(l.kind) != -1 && TypeOf(l.kind) < TYPE_MAX && l.entries != []
    ensures Empty(l) ==> |l.entries| == 1
  {
    if Sized(TypeOf(l.kind)) {
      SizedNotEmpty(TypeOf(l.kind));
    }
    hide TypeFrom, TableSize, DistinctBy;
  }

  /** A file of kept lists builds exactly its lists, after those already there. */
  lemma {:induction false} AddsFile(d: bool, lists: seq<SigList>, file: seq<Esl>, lists': seq<SigList>)
    requires forall l :: l in file ==> Kept(l) && WellFormed(l) && TypeOf(l.kind) != -1 && Size(l) < TWO32
    requires AddAll(Unsorted(d), lists, Contents(file), lists')
    ensures lists' == lists + ListsOf(Unsorted(d), file)
    decreases |file|
  {
    hide *;
    if file == [] {
      AddsNothing(Unsorted(d), lists, lists');
    } else {
      ContentsSplit(file);
      var l, k := file[0], |file[0].entries|;
      assert l in file;
      KeptIs(l);
      var mid := AddAllSplit(Unsorted(d), lists, Contents(file)[..k], Contents(file[1..]), lists');
      AddsList(d, lists, l, k, Contents(file)[..k], mid);
      AddsFile(d, mid, file[1..], lists');
      assert ListsOf(Unsorted(d), file) == [Held(Unsorted(d), l, k)] + ListsOf(Unsorted(d), file[1..]);
      Associative(lists, [Held(Unsorted(d), l, k)], ListsOf(Unsorted(d), file[1..]));
    }
  }

  // ---------- no addition of such a file reads past a stored entry ----------

  lemma ForcedSteady(d: bool, lists: seq<SigList>, alg: nat, data: seq<byte>)
    requires alg < TYPE_MAX
    ensures !AddOver(Unsorted(d), lists, alg, data, true)
  {
    SelectsNew(d, lists, alg, |data| + 16);
    hide Select;
    AddOverIs(Unsorted(d), lists, alg, data, true);
  }

  lemma NextSteady(d: bool, pre: seq<SigList>, l: Esl, j: nat)
    requires Kept(l) && 0 < j < |l.entries|
    ensures 0 <= TypeOf(l.kind) < TYPE_MAX && !Empty(l)
    ensures !AddOver(Unsorted(d), pre + [ListOf(Unsorted(d), l, j)], TypeOf(l.kind), l.entries[j].data, false)
  {
    KeptIs(l);
    hide TypeOf;
    var t, x, e := TypeOf(l.kind), ListOf(Unsorted(d), l, j), l.entries[j];
    SizedNotEmpty(t);
    assert e in l.entries;
    FindsLast(d, pre, x, t, |e.data| + 16);
    hide Select, TableSize, DistinctBy;
    assert forall y :: y in x.entries ==> y in l.entries;
    NoAddOverread(x.entries, 0, e.data);
    AddOverIs(Unsorted(d), pre + [x], t, e.data, false);
  }

  lemma FetchedForced(d: bool, l: Esl, j: nat)
    requires j < |l.entries|
    ensures Forced(Unsorted(d), FetchedOf(l, j)) == (j == 0)
    ensures FetchedOf(l, j).kind == l.kind && FetchedOf(l, j).data == l.entries[j].data
    ensures FetchedOf(l, j).corrected || (FetchedOf(l, j).first && !Unsorted(d).sort) <==> j == 0
  {
  }

  lemma {:induction false} StaysSteady(d: bool, lists: seq<SigList>, file: seq<Esl>, n: nat, mid: seq<SigList>)
    requires forall l :: l in file ==> Kept(l) && WellFormed(l) && TypeOf(l.kind) != -1 && Size(l) < TWO32
    requires n < |Contents(file)| && AddAll(Unsorted(d), lists, Contents(file)[..n], mid)
    ensures !Stumbles(Unsorted(d), mid, Contents(file)[n])
    decreases |file|
  {
    hide *;
    if file == [] {
      ContentsNone();
      assert false;
    }
    ContentsSplit(file);
    var l, k, fs := file[0], |file[0].entries|, Contents(file);
    assert l in file;
    KeptIs(l);
    if n < k {
      var t := TypeOf(l.kind);
      FetchedForced(d, l, n);
      StumblesIs(Unsorted(d), mid, fs[n], t, n == 0);
      if n == 0 {
        ForcedSteady(d, mid, t, l.entries[0].data);
      } else {
        AddsList(d, lists, l, n, fs[..n], mid);
        HeldIs(Unsorted(d), l, n);
        NextSteady(d, lists, l, n);
      }
    } else {
      var rest := Contents(file[1..]);
      assert fs[..n] == fs[..k] + rest[..n - k] && fs[n] == rest[n - k];
      var own := AddAllSplit(Unsorted(d), lists, fs[..k], rest[..n - k], mid);
      StaysSteady(d, own, file[1..], n - k, mid);
    }
  }

  lemma ContentsNone()
    ensures Contents([]) == []
  {
  }

  lemma KeptSteady(d: bool, file: seq<Esl>)
    requires forall l :: l in file ==> Kept(l) && WellFormed(l) && TypeOf(l.kind) != -1 && Size(l) < TWO32
    ensures Steady(Unsorted(d), [], Contents(file))
  {
    hide Kept, WellFormed, TypeOf, Contents, AddAll, Stumbles, Size, Unsorted;
    forall n: nat, mid ensures !StopsAt(Unsorted(d), [], Contents(file), n, mid) {
      if n < |Contents(file)| && AddAll(Unsorted(d), [], Contents(file)[..n], mid) {
        StaysSteady(d, [], file, n, mid);
      }
    }
  }

  lemma ListOfReadable(flags: Flags, l: Esl)
    requires WellFormed(l) && TypeOf(l.kind) != -1
    ensures var x := ListOf(flags, l, |l.entries|);
      Readable(x) && x.entries != [] && EslOf(x) == l
  {
    var x := ListOf(flags, l, |l.entries|);
    hide TypeFrom;
    assert x.entries == l.entries;
    assert Readable(x);
    forall j | 0 <= j < |l.entries| ensures SeenAll(x)[j] == l.entries[j] {
      assert l.entries[j] in l.entries;
      assert SeenAll(x)[j] == Seen(x, j);
    }
    assert SeenAll(x) == l.entries;
  }

  /** The lists that are not empty. */
  function Filled(file: seq<Esl>): (r: seq<Esl>)
    ensures forall l :: l in r ==> l in file && !Empty(l)
  {
    if file == [] then []
    else
      var front, l := file[..|file| - 1], file[|file| - 1];
      Filled(front) + if Empty(l) then [] else [l]
  }

  lemma HeldReadable(flags: Flags, l: Esl)
    requires WellFormed(l) && TypeOf(l.kind) != -1
    ensures var x := Held(flags, l, |l.entries|);
      Readable(x) && (Empty(l) <==> x.entries == []) && (!Empty(l) ==> EslOf(x) == l)
  {
    HeldIs(flags, l, |l.entries|);
    if !Empty(l) {
      ListOfReadable(flags, l);
    }
    hide ListOf, TypeFrom, EslOf, Empty, WellFormed;
  }

  lemma {:induction false} ViewsFile(flags: Flags, file: seq<Esl>, lists: seq<SigList>, k: nat)
    requires forall l :: l in file ==> WellFormed(l) && TypeOf(l.kind) != -1
    requires lists == ListsOf(flags, file) && k <= |file| && AllReadable(lists)
    ensures View(lists, k) == Filled(file[..k])
    decreases k
  {
    hide *;
    if k == 0 {
      ViewNone(lists);
      FilledNone();
    } else {
      ViewsFile(flags, file, lists, k - 1);
      assert file[k - 1] in file;
      HeldReadable(flags, file[k - 1]);
      ViewNext(lists, k - 1);
      assert file[..k] == file[..k - 1] + [file[k - 1]];
      FilledNext(file[..k - 1], file[k - 1]);
    }
  }

  lemma FilledNone()
    ensures Filled([]) == []
  {
  }

  lemma FilledNext(front: seq<Esl>, l: Esl)
    ensures Filled(front + [l]) == if Empty(l) then Filled(front) else Filled(front) + [l]
  {
    assert (front + [l])[..|front|] == front;
  }

  lemma ListsReadable(flags: Flags, file: seq<Esl>)
    requires forall l :: l in file ==> WellFormed(l) && TypeOf(l.kind) != -1
    ensures AllReadable(ListsOf(flags, file))
  {
    hide Readable, Held, TypeOf, WellFormed, EslOf;
    forall i | 0 <= i < |file| ensures Readable(ListsOf(flags, file)[i]) {
      assert file[i] in file;
      HeldReadable(flags, file[i]);
    }
  }

  /** Leaving out a list makes the file shorter. */
  lemma {:induction false} FilledShorter(file: seq<Esl>)
    requires forall l :: l in file ==> WellFormed(l)
    ensures |Layout(Filled(file))| <= |Layout(file)|
    ensures |Layout(Filled(file))| == |Layout(file)| <==> forall l :: l in file ==> !Empty(l)
    ensures (forall l :: l in file ==> !Empty(l)) ==> Filled(file) == file
    decreases |file|
  {
    hide Layout, Empty, WellFormed, Filled;
    if file == [] {
      FilledNone();
    } else {
      var front, l := file[..|file| - 1], file[|file| - 1];
      assert file == front + [l];
      FilledNext(front, l);
      FilledShorter(front);
      LayoutSnoc(front, l);
      LayoutSnoc(Filled(front), l);
      assert forall x :: x in file ==> x in front || x == l;
    }
  }

  lemma ExtentHolds(l: Esl)
    requires WellFormed(l)
    ensures Size(l) <= Extent(l)
  {
    SizeFits(l);
  }

  /** A file of kept lists, each within its own size field. */
  ghost predicate KeptFile(file: seq<Esl>) {
    file != [] && Sizeable(file) && forall l :: l in file ==> Kept(l)
  }

  lemma KeptFileIs(file: seq<Esl>)
    requires KeptFile(file)
    ensures file != [] && Sizeable(file)
    ensures forall l :: l in file ==> Kept(l) && WellFormed(l) && TypeOf(l.kind) != -1 && Size(l) < TWO32
  {
    hide Kept, WellFormed, Extent, Size, TypeOf;
    forall l | l in file ensures Kept(l) && WellFormed(l) && TypeOf(l.kind) != -1 && Size(l) < TWO32 {
      KeptIs(l);
      ExtentHolds(l);
    }
  }

  /** What the parse of such a file has built realises to the file without its empty lists, and so to the file if
      and only if it has none. The parse succeeds if and only if the file is below 4 GiB. */
  lemma RoundTrip(d: bool, file: seq<Esl>, b: seq<byte>, p: Parsing, lists': seq<SigList>)
    requires KeptFile(file) && b == Layout(file) && |b| < TWO64
    requires ParsePost(Unsorted(d), [], b, p, lists')
    ensures p == EndingAt(|b|) && AllReadable(lists')
    ensures Realized(lists') == Layout(Filled(file))
    ensures Realized(lists') == b <==> forall l :: l in file ==> !Empty(l)
  {
    hide *;
    KeptFileIs(file);
    KeptSteady(d, file);
    var mid := ParseCases(Unsorted(d), [], file, p, lists');
    EndingOnly(|b|);
    if p == Parsed {
      NotSorted(d, mid, lists');
    }
    AddsFile(d, [], file, mid);
    assert [] + ListsOf(Unsorted(d), file) == ListsOf(Unsorted(d), file);
    ListsReadable(Unsorted(d), file);
    ViewsFile(Unsorted(d), file, lists', |file|);
    RealizedIs(lists');
    assert file[..|file|] == file;
    FilledShorter(file);
  }

  lemma NotSorted(d: bool, lists: seq<SigList>, lists': seq<SigList>)
    requires ListsSorted(Unsorted(d), lists, lists')
    ensures lists' == lists
  {
  }

  /** A certificate list with one entry and no data: the round trip loses it. */
  lemma EmptyListLost(owner: Guid, d: bool, p: Parsing, lists': seq<SigList>)
    ensures var file := [Esl(TypeGuid(X509_CERT), [Entry(owner, [])])];
      && KeptFile(file) && |Layout(file)| == 44
      && (ParsePost(Unsorted(d), [], Layout(file), p, lists') ==>
            p == Parsed && AllReadable(lists') && Realized(lists') == [])
  {
    var l := Esl(TypeGuid(X509_CERT), [Entry(owner, [])]);
    TypeRoundTrip(X509_CERT);
    assert Kept(l) && Extent(l) == 44 && Empty(l);
    EmptyListBytes(l);
    assert [l][1..] == [] && Filled([l]) == Filled([l][..0]);
    assert Layout([l]) == EslBytes(l) + Layout([]);
    hide Layout, Filled, Kept, ParsePost, TypeGuid, EslBytes;
    assert KeptFile([l]);
    if ParsePost(Unsorted(d), [], Layout([l]), p, lists') {
      RoundTrip(d, [l], Layout([l]), p, lists');
    }
  }

  lemma EmptyListBytes(l: Esl)
    requires |l.entries| == 1 && l.entries[0].data == [] && WellFormed(l)
    ensures |EslBytes(l)| == 44
  {
    SignaturesLength(l.entries, Size(l));
  }

  /** The same on the engine: a new database with sorting switched off reads a file and writes it back; None from
      4 GiB on, where the parse reads past the file. */
  method ReadAndWrite(b: seq<byte>, ghost file: seq<Esl>) returns (out: Option<seq<byte>>)
    requires KeptFile(file) && b == Layout(file) && |b| < TWO64
    ensures out.Some? <==> |b| < TWO32
    ensures out.Some? ==> (out.value == b <==> forall l :: l in file ==> !Empty(l))
  {
    var db := new Database();
    var _ := db.SetBool(0, false);
    assert db.flags == Unsorted(false);
    assert EndingAt(|b|) == Parsed <==> |b| < TWO32;
    hide *;
    var p, _ := Parse(db, b);
    RoundTrip(false, file, b, p, db.lists);
    if p != Parsed {
      return None;
    }
    AllKnown(db.lists);
    out := Realize(db);
  }
}
