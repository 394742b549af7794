/**
  With types and data sorted, the realised bytes of a hash database depend on its contents and the
  sort direction alone, and parsing what was realised gives the same bytes again.
 */
module SecDbCanonical {
  import opened Bytes
  import opened EslIter
  import opened Guids
  import opened Sorting
  import opened SecDb
  import opened SecDbFile
  import opened SecDbRuns

  // ---------- the comparators are orders ----------

  lemma EntryOrderConsistent(es: seq<Entry>, sz: nat, d: bool)
    ensures Consistent(es, EntryOrder(sz, d))
  {
    hide Lex, Key;
    var cmp := EntryOrder(sz, d);
    forall x, y ensures cmp(x, y) <= 0 || cmp(y, x) <= 0 {
      LexMirror(Key(x, sz), Key(y, sz));
    }
    forall x, y, z | cmp(x, y) <= 0 && cmp(y, z) <= 0 ensures cmp(x, z) <= 0 {
      if d {
        LexTransitive(Key(z, sz), Key(y, sz), Key(x, sz));
      } else {
        LexTransitive(Key(x, sz), Key(y, sz), Key(z, sz));
      }
    }
  }

  lemma KeyInjective(a: Entry, b: Entry, sz: nat)
    requires |a.data| == |b.data| == sz && Key(a, sz) == Key(b, sz)
    ensures a == b
  {
    hide Display;
    var x, y := Key(a, sz), Key(b, sz);
    assert x[..16] == Display(a.owner) && y[..16] == Display(b.owner);
    assert x[16..] == a.data[..sz] == a.data && y[16..] == b.data[..sz] == b.data;
    DisplayInjective(a.owner, b.owner);
  }

  /** Between right-sized entries the order is strict, and one-sided. */
  lemma EntryOrderStrict(a: Entry, b: Entry, sz: nat, d: bool)
    requires |a.data| == |b.data| == sz
    ensures EntryOrder(sz, d)(a, b) == 0 ==> a == b
    ensures EntryOrder(sz, d)(a, b) < 0 ==> EntryOrder(sz, d)(b, a) > 0
  {
    hide Lex, Key;
    LexMirror(Key(a, sz), Key(b, sz));
    LexZero(Key(a, sz), Key(b, sz));
    if Key(a, sz) == Key(b, sz) {
      KeyInjective(a, b, sz);
    }
  }

  /** The order of two good lists of different types is that of their types. */
  lemma ListOrderIs(a: SigList, b: SigList, d: bool)
    requires a.algorithm < TYPE_MAX && b.algorithm < TYPE_MAX && a.algorithm != b.algorithm
    ensures ListOrder(d)(a, b) == if d then b.algorithm - a.algorithm else a.algorithm - b.algorithm
  {
  }

  lemma SameAlgorithm(lists: seq<SigList>, a: SigList, b: SigList)
    requires DistinctBy(lists, AlgorithmOf) && a in lists && b in lists && a.algorithm == b.algorithm
    ensures a == b
  {
    var i :| 0 <= i < |lists| && lists[i] == a;
    var j :| 0 <= j < |lists| && lists[j] == b;
    assert AlgorithmOf(lists[i]) == AlgorithmOf(lists[j]);
  }

  lemma ListOrderConsistent(lists: seq<SigList>, added: multiset<nat>, d: bool)
    requires Inv(lists, added)
    ensures Consistent(lists, ListOrder(d))
  {
    InvDistinct(lists, added);
    InvAlgorithms(lists, added);
    hide Inv, SecdbCmp, DistinctBy;
    var cmp := ListOrder(d);
    forall x, y | x in lists && y in lists
      ensures cmp(x, y) == if d then y.algorithm - x.algorithm else x.algorithm - y.algorithm {
      if x.algorithm == y.algorithm {
        SameAlgorithm(lists, x, y);
      } else {
        ListOrderIs(x, y, d);
      }
    }
    hide ListOrder;
  }

  lemma InvAlgorithms(lists: seq<SigList>, added: multiset<nat>)
    requires Inv(lists, added)
    ensures forall l :: l in lists ==> l.algorithm < TYPE_MAX && Sized(l.algorithm)
  {
    hide DistinctBy;
    forall l | l in lists ensures Sized(l.algorithm) && l.algorithm < TYPE_MAX {
      assert Good(l, added[l.algorithm]);
      SizedNotEmpty(l.algorithm);
    }
  }

  // ---------- what sorting keeps ----------

  ghost predicate EntriesOrdered(d: bool, l: SigList) {
    && l.algorithm < TYPE_MAX && l.flags == Flags(true, true, d)
    && InOrder(l.entries, EntryOrder(TableSize(l.algorithm), d))
  }

  ghost predicate Ordered(d: bool, lists: seq<SigList>) {
    (forall l :: l in lists ==> EntriesOrdered(d, l)) && InOrder(lists, ListOrder(d))
  }

  lemma SortedList(l: SigList, d: bool, sz: nat, es: seq<Entry>)
    requires l.flags == Flags(true, true, d) && l.sigsz != 0 && l.algorithm < TYPE_MAX && sz == TableSize(l.algorithm)
    requires EntriesSorted(l, sz, es)
    ensures EntriesOrdered(d, l.(entries := es))
  {
    EntryOrderConsistent(l.entries, sz, d);
    hide EntryOrder, Consistent, InOrder, TableSize;
  }

  lemma SortedLists(lists: seq<SigList>, added: multiset<nat>, d: bool, lists': seq<SigList>)
    requires Inv(lists, added) && (forall l :: l in lists ==> EntriesOrdered(d, l))
    requires ListsSorted(Flags(true, true, d), lists, lists')
    ensures Ordered(d, lists')
  {
    ListOrderConsistent(lists, added, d);
    ListsSortedMembers(Flags(true, true, d), lists, lists');
    SameMembers(lists', lists);
    hide ListOrder, Consistent, InOrder, EntriesOrdered;
  }

  lemma AddOrdered(lists: seq<SigList>, a: Ideal, d: bool, owner: Guid, alg: nat, data: seq<byte>, lists': seq<SigList>)
    requires Inv(lists, a.added) && Represents(lists, a.store) && Ordered(d, lists) && RightSize(alg, data)
    requires Unwrapped(MapAdd(a, owner, alg, data).added)
    requires AddPost(Flags(true, true, d), lists, owner, alg, data, false, lists')
    ensures Ordered(d, lists')
  {
    hide *;
    var flags := Flags(true, true, d);
    var k, base, es := AddCases(flags, lists, a.added, owner, alg, data, lists');
    HasDataMaps(lists, a.store, alg, data);
    MapAddIs(a, owner, alg, data);
    if !HasData(lists, alg, data) {
      SizeOf(alg, data);
      NextSize(a.added, alg);
      GrowsRefines(flags, lists, a.added, owner, alg, data, k, base, es, lists');
      GoodUniform(Appended(base, owner, data).(entries := es), a.added[alg] + 1);
      BaseFlags(flags, lists, d, owner, alg, data, k, base, es, lists');
      var l := Appended(base, owner, data).(entries := es);
      SizedNotEmpty(alg);
      AppendedKeeps(base, owner, data);
      SortedList(Appended(base, owner, data), d, |data|, es);
      OrderedReplaced(lists, d, k, l);
      SortedLists(Replaced(lists, k, l), a.added + multiset{alg}, d, lists');
    }
  }

  lemma AppendedKeeps(l: SigList, owner: Guid, data: seq<byte>)
    ensures Appended(l, owner, data).flags == l.flags && Appended(l, owner, data).algorithm == l.algorithm
    ensures l.sigsz > 0 && l.algorithm != X509_CERT ==> Appended(l, owner, data).sigsz != 0
  {
  }

  lemma BaseFlags(
      flags: Flags, lists: seq<SigList>, d: bool, owner: Guid, alg: nat, data: seq<byte>, k: nat, base: SigList,
      es: seq<Entry>, lists': seq<SigList>)
    requires alg < TYPE_MAX && Sized(alg) && Grows(flags, lists, owner, alg, data, k, base, es, lists')
    requires flags == Flags(true, true, d) && Ordered(d, lists)
    requires Uniform(Appended(base, owner, data).(entries := es))
    ensures base.flags == flags && Appended(base, owner, data).sigsz != 0
    ensures EntriesSorted(Appended(base, owner, data), |data|, es)
    ensures ListsSorted(flags, Replaced(lists, k, Appended(base, owner, data).(entries := es)), lists')
  {
    hide Appended, EntriesSorted, ListsSorted, Replaced, InOrder, DistinctBy;
    if k < |lists| {
      assert lists[k] in lists;
    }
  }

  lemma OrderedReplaced(lists: seq<SigList>, d: bool, k: nat, l: SigList)
    requires Ordered(d, lists) && EntriesOrdered(d, l)
    ensures forall x :: x in Replaced(lists, k, l) ==> EntriesOrdered(d, x)
  {
    hide EntriesOrdered, InOrder;
  }

  lemma WithoutInOrder(es: seq<Entry>, k: nat, cmp: (Entry, Entry) -> int)
    requires InOrder(es, cmp)
    ensures InOrder(Without(es, k), cmp)
  {
    if k < |es| {
      var r := Without(es, k);
      forall i, j | 0 <= i < j < |r| ensures cmp(r[i], r[j]) <= 0 {
        WithoutAt(es, k, i);
        WithoutAt(es, k, j);
      }
    }
  }

  lemma WithoutAt(es: seq<Entry>, k: nat, i: nat)
    requires k < |es| && i < |Without(es, k)|
    ensures i + 1 < |es| && Without(es, k)[i] == es[if i < k then i else i + 1]
  {
  }

  lemma DelOrdered(lists: seq<SigList>, d: bool, owner: Guid, alg: nat, data: seq<byte>)
    requires Ordered(d, lists) && alg < TYPE_MAX
    ensures Ordered(d, DelPost(lists, owner, alg, data))
  {
    hide EntryOrder, TableSize, FirstMatch, Without, Find, ComparedSize;
    match Find(lists, alg, |data|)
    case None =>
    case Some(k) =>
      var l := lists[k];
      assert l in lists;
      var es := Without(l.entries, FirstMatch(l.entries, 0, owner, data, ComparedSize(alg, |data|)));
      WithoutInOrder(l.entries, FirstMatch(l.entries, 0, owner, data, ComparedSize(alg, |data|)),
                     EntryOrder(TableSize(l.algorithm), d));
      ReplacedOrder(lists, d, k, l.(entries := es));
  }

  lemma ReplacedOrder(lists: seq<SigList>, d: bool, k: nat, l: SigList)
    requires k < |lists| && Ordered(d, lists) && EntriesOrdered(d, l) && l == lists[k].(entries := l.entries)
    ensures Ordered(d, lists[k := l])
  {
    hide EntriesOrdered;
    var ls, cmp := lists[k := l], ListOrder(d);
    forall i, j | 0 <= i < j < |ls| ensures cmp(ls[i], ls[j]) <= 0 {
      assert cmp(ls[i], ls[j]) == cmp(lists[i], lists[j]);
    }
  }

  lemma {:induction false} AddAllOrdered(
      lists: seq<SigList>, a: Ideal, d: bool, fs: seq<Fetched>, lists': seq<SigList>)
    requires (forall f :: f in fs ==> RightFetched(f)) && Unwrapped(MapAddAll(a, fs).added)
    requires Refines(lists, a) && Ordered(d, lists) && AddAll(Flags(true, true, d), lists, fs, lists')
    ensures Ordered(d, lists')
    decreases |fs|
  {
    if fs == [] {
      hide Ordered;
    } else {
      hide AddAll, AddFetched, Refines, Ordered, RightFetched, MapFetched, Unwrapped;
      var flags, front, f := Flags(true, true, d), fs[..|fs| - 1], fs[|fs| - 1];
      var mid := AddAllLast(flags, lists, fs, lists');
      FetchedGrows(MapAddAll(a, front), f);
      UnwrappedBelow(MapAddAll(a, front).added, MapAddAll(a, fs).added);
      AddAllOrdered(lists, a, d, front, mid);
      AddAllRefines(flags, lists, a, front, mid);
      assert f in fs;
      FetchedOrdered(mid, MapAddAll(a, front), d, f, lists');
    }
  }

  lemma FetchedOrdered(lists: seq<SigList>, a: Ideal, d: bool, f: Fetched, lists': seq<SigList>)
    requires RightFetched(f) && Unwrapped(MapFetched(a, f).added)
    requires Refines(lists, a) && Ordered(d, lists) && AddFetched(Flags(true, true, d), lists, f, lists')
    ensures Ordered(d, lists')
  {
    FetchedAdds(Flags(true, true, d), lists, f, lists');
    hide AddFetched, Inv, Represents, Ordered, MapAdd, RightFetched, TypeOf, RightSize, AddPost, Unwrapped;
    AddOrdered(lists, a, d, f.owner, TypeOf(f.kind), f.data, lists');
  }

  lemma ParseOrdered(lists: seq<SigList>, a: Ideal, d: bool, file: seq<Esl>, p: Parsing, lists': seq<SigList>)
    requires RightFile(file) && Unwrapped(MapAddAll(a, Contents(file)).added)
    requires Refines(lists, a) && Ordered(d, lists)
    requires ParsePost(Flags(true, true, d), lists, Layout(file), p, lists')
    ensures Ordered(d, lists')
  {
    hide *;
    RightFileIs(file);
    var flags := Flags(true, true, d);
    RightContents(file);
    RightSteady(flags, lists, a, Contents(file));
    var mid := ParseCases(flags, lists, file, p, lists');
    AddAllRefines(flags, lists, a, Contents(file), mid);
    AddAllOrdered(lists, a, d, Contents(file), mid);
    EndingOnly(|Layout(file)|);
    if p == Parsed {
      OrderedIs(d, mid);
      RefinesInv(mid, MapAddAll(a, Contents(file)));
      SortedLists(mid, MapAddAll(a, Contents(file)).added, d, lists');
    }
  }

  lemma OrderedIs(d: bool, lists: seq<SigList>)
    requires Ordered(d, lists)
    ensures forall l :: l in lists ==> EntriesOrdered(d, l)
  {
    hide EntriesOrdered, InOrder;
  }

  lemma StepOrdered(s: State, a: Ideal, d: bool, op: Op, s': State)
    requires Allowed(op) && !op.FlagOp? && Does(s, op, s') && s.flags == Flags(true, true, d)
    requires Refines(s.lists, a) && Ordered(d, s.lists) && Unwrapped(MapOp(a, op).added)
    ensures s'.flags == s.flags && Ordered(d, s'.lists)
  {
    AllowedSize(op);
    hide Inv, Represents, AddPost, DelPost, ParsePost, Contents, RightSize, RightFile, Layout, Ordered, MapAdd, MapDel,
      MapAddAll, Unwrapped;
    match op
    case AddOp(owner, alg, data) => AddOrdered(s.lists, a, d, owner, alg, data, s'.lists);
    case DelOp(owner, alg, data) => DelOrdered(s.lists, d, owner, alg, data);
    case ParseOp(file) => ParseOrdered(s.lists, a, d, file, Parsed, s'.lists);
  }

  /** Every run that keeps both sort flags leaves an ordered database. */
  lemma {:induction false} RunOrdered(states: seq<State>, ops: seq<Op>, d: bool)
    requires (forall op :: op in ops ==> Allowed(op) && !op.FlagOp?) && Runs(states, ops)
    requires Unwrapped(MapRun(ops).added) && states[0].flags == Flags(true, true, d)
    ensures states[|ops|].flags == Flags(true, true, d) && Ordered(d, states[|ops|].lists)
    decreases |ops|
  {
    hide Does, Refines, MapOp, Allowed, Unwrapped;
    if ops == [] {
      EmptyOrdered(d);
    } else {
      hide Ordered;
      var k := |ops| - 1;
      OpGrows(MapRun(ops[..k]), ops[k]);
      UnwrappedBelow(MapRun(ops[..k]).added, MapRun(ops).added);
      RunOrdered(states[..k + 1], ops[..k], d);
      RunRefines(states[..k + 1], ops[..k]);
      assert ops[k] in ops;
      StepOrdered(states[k], MapRun(ops[..k]), d, ops[k], states[k + 1]);
    }
  }

  // ---------- one database for each map ----------

  /** The lists that reach the file, by type. */
  function Named(lists: seq<SigList>, n: nat): (ns: seq<(nat, seq<Entry>)>)
    requires n <= |lists|
  {
    if n == 0 then []
    else if lists[n - 1].entries == [] then Named(lists, n - 1)
    else Named(lists, n - 1) + [(lists[n - 1].algorithm, lists[n - 1].entries)]
  }

  lemma {:induction false} NamedMembers(lists: seq<SigList>, n: nat, a: nat, es: seq<Entry>)
    requires n <= |lists|
    ensures (a, es) in Named(lists, n) <==>
      exists i :: 0 <= i < n && lists[i].algorithm == a && lists[i].entries == es && es != []
  {
    if n > 0 {
      NamedMembers(lists, n - 1, a, es);
      if i :| 0 <= i < n && lists[i].algorithm == a && lists[i].entries == es && es != [] {
        if i == n - 1 {
          assert Named(lists, n)[|Named(lists, n)| - 1] == (a, es);
        }
      }
    }
  }

  function NameOrder(d: bool): (cmp: ((nat, seq<Entry>), (nat, seq<Entry>)) -> int) {
    (a: (nat, seq<Entry>), b: (nat, seq<Entry>)) => if d then b.0 - a.0 else a.0 - b.0
  }

  lemma ListsApart(lists: seq<SigList>, added: multiset<nat>, d: bool, i: nat, j: nat)
    requires Inv(lists, added) && Ordered(d, lists) && i < j < |lists|
    ensures if d then lists[j].algorithm < lists[i].algorithm else lists[i].algorithm < lists[j].algorithm
  {
    InvDistinct(lists, added);
    InvAlgorithms(lists, added);
    assert AlgorithmOf(lists[i]) != AlgorithmOf(lists[j]);
    ListOrderIs(lists[i], lists[j], d);
    hide ListOrder, Inv, EntriesOrdered;
    assert ListOrder(d)(lists[i], lists[j]) <= 0;
  }

  lemma {:induction false} NamedStrict(lists: seq<SigList>, added: multiset<nat>, d: bool, k: nat)
    requires Inv(lists, added) && Ordered(d, lists) && k <= |lists|
    ensures Strict(Named(lists, k), NameOrder(d))
    decreases k
  {
    hide Inv, Ordered;
    if k > 0 {
      NamedStrict(lists, added, d, k - 1);
      var front, cmp := Named(lists, k - 1), NameOrder(d);
      var last := (lists[k - 1].algorithm, lists[k - 1].entries);
      forall x | x in front ensures cmp(x, last) < 0 {
        NamedMembers(lists, k - 1, x.0, x.1);
        var i :| 0 <= i < k - 1 && lists[i].algorithm == x.0 && lists[i].entries == x.1;
        ListsApart(lists, added, d, i, k - 1);
      }
      StrictSnoc(front, last, cmp);
    }
  }

  lemma StrictSnoc<T>(s: seq<T>, x: T, cmp: (T, T) -> int)
    requires Strict(s, cmp) && forall y :: y in s ==> cmp(y, x) < 0
    ensures Strict(s + [x], cmp)
  {
    forall i, j | 0 <= i < j < |s| + 1 ensures cmp((s + [x])[i], (s + [x])[j]) < 0 {
      assert (s + [x])[i] in s;
    }
  }

  lemma EntriesStrict(l: SigList, d: bool)
    requires Uniform(l) && EntriesOrdered(d, l)
    ensures Strict(l.entries, EntryOrder(TableSize(l.algorithm), d))
    ensures forall x, y :: x in l.entries && y in l.entries && EntryOrder(TableSize(l.algorithm), d)(x, y) < 0 ==>
      EntryOrder(TableSize(l.algorithm), d)(y, x) >= 0
  {
    hide EntryOrder, TableSize, Sized;
    var es, sz := l.entries, TableSize(l.algorithm);
    forall i, j | 0 <= i < j < |es| ensures EntryOrder(sz, d)(es[i], es[j]) < 0 {
      assert es[i] in es && es[j] in es && DataOf(es[i]) != DataOf(es[j]);
      EntryOrderStrict(es[i], es[j], sz, d);
    }
    forall x, y | x in es && y in es && EntryOrder(sz, d)(x, y) < 0 ensures EntryOrder(sz, d)(y, x) >= 0 {
      EntryOrderStrict(x, y, sz, d);
    }
  }

  /** Two ordered lists of one type with the same members are equal. */
  lemma SameEntries(l1: SigList, l2: SigList, d: bool)
    requires Uniform(l1) && Uniform(l2) && EntriesOrdered(d, l1) && EntriesOrdered(d, l2)
    requires l1.algorithm == l2.algorithm && forall e :: e in l1.entries <==> e in l2.entries
    ensures l1.entries == l2.entries
  {
    EntriesStrict(l1, d);
    EntriesStrict(l2, d);
    hide EntryOrder, TableSize, Sized, Uniform, Strict;
    StrictUnique(l1.entries, l2.entries, EntryOrder(TableSize(l1.algorithm), d));
  }

  /** Both databases represent one map and are sorted the same way. */
  ghost predicate Twins(lists1: seq<SigList>, lists2: seq<SigList>, a1: Ideal, a2: Ideal, d: bool) {
    && Refines(lists1, a1) && Refines(lists2, a2) && a1.store == a2.store
    && Ordered(d, lists1) && Ordered(d, lists2)
  }

  /** A non-empty list of one database has its members in one list of the other. */
  lemma SameMap(lists1: seq<SigList>, lists2: seq<SigList>, a1: Ideal, a2: Ideal, i: nat) returns (j: nat)
    requires Refines(lists1, a1) && Refines(lists2, a2) && a1.store == a2.store
    requires i < |lists1| && lists1[i].entries != []
    ensures j < |lists2| && lists1[i].algorithm == lists2[j].algorithm && Uniform(lists1[i]) && Uniform(lists2[j])
    ensures forall e :: e in lists1[i].entries <==> e in lists2[j].entries
  {
    InvDistinct(lists1, a1.added);
    InvDistinct(lists2, a2.added);
    InvUniform(lists1, a1.added, i);
    hide Inv, Maps, DistinctBy, Uniform;
    var x, e0 := lists1[i].algorithm, lists1[i].entries[0];
    PresentIn(lists1, i, e0);
    assert Maps(a1.store, x, e0);
    assert Present(lists2, x, e0);
    j := IndexOf(lists2, x, e0);
    forall e ensures e in lists1[i].entries <==> e in lists2[j].entries {
      PresentIn(lists1, i, e);
      PresentIn(lists2, j, e);
      assert Maps(a1.store, x, e) <==> Present(lists1, x, e);
      assert Maps(a1.store, x, e) <==> Present(lists2, x, e);
    }
    InvUniform(lists2, a2.added, j);
  }

  lemma TwinNames(lists1: seq<SigList>, lists2: seq<SigList>, a1: Ideal, a2: Ideal, d: bool, x: (nat, seq<Entry>))
    requires Twins(lists1, lists2, a1, a2, d) && x in Named(lists1, |lists1|)
    ensures x in Named(lists2, |lists2|)
  {
    NamedMembers(lists1, |lists1|, x.0, x.1);
    NamedMembers(lists2, |lists2|, x.0, x.1);
    hide Refines, Named, InOrder, EntriesOrdered, Uniform;
    var i :| 0 <= i < |lists1| && lists1[i].algorithm == x.0 && lists1[i].entries == x.1 && x.1 != [];
    var j := SameMap(lists1, lists2, a1, a2, i);
    assert lists1[i] in lists1 && lists2[j] in lists2;
    SameEntries(lists1[i], lists2[j], d);
  }

  lemma IndexOf(lists: seq<SigList>, alg: nat, e: Entry) returns (j: nat)
    requires Present(lists, alg, e)
    ensures j < |lists| && lists[j].algorithm == alg && e in lists[j].entries
  {
    var l :| l in lists && l.algorithm == alg && e in l.entries;
    j :| 0 <= j < |lists| && lists[j] == l;
  }

  lemma TwinsSwap(lists1: seq<SigList>, lists2: seq<SigList>, a1: Ideal, a2: Ideal, d: bool)
    requires Twins(lists1, lists2, a1, a2, d)
    ensures Twins(lists2, lists1, a2, a1, d)
    ensures Inv(lists1, a1.added) && Ordered(d, lists1)
  {
    hide Inv, Ordered, Represents;
  }

  lemma TwinsNamed(lists1: seq<SigList>, lists2: seq<SigList>, a1: Ideal, a2: Ideal, d: bool)
    requires Twins(lists1, lists2, a1, a2, d)
    ensures Named(lists1, |lists1|) == Named(lists2, |lists2|)
  {
    hide Twins, Inv, Ordered, Named, Strict;
    TwinsSwap(lists1, lists2, a1, a2, d);
    TwinsSwap(lists2, lists1, a2, a1, d);
    NamedStrict(lists1, a1.added, d, |lists1|);
    NamedStrict(lists2, a2.added, d, |lists2|);
    var s, t := Named(lists1, |lists1|), Named(lists2, |lists2|);
    forall x ensures x in s <==> x in t {
      if x in s {
        TwinNames(lists1, lists2, a1, a2, d, x);
      }
      if x in t {
        TwinNames(lists2, lists1, a2, a1, d, x);
      }
    }
    StrictUnique(s, t, NameOrder(d));
  }

  function EslNamed(x: (nat, seq<Entry>)): (l: Esl) {
    if x.0 < TYPE_MAX then Esl(TypeGuid(x.0), x.1) else Esl(TypeGuid(0), x.1)
  }

  function EslsNamed(ns: seq<(nat, seq<Entry>)>): (ls: seq<Esl>) {
    if ns == [] then [] else EslsNamed(ns[..|ns| - 1]) + [EslNamed(ns[|ns| - 1])]
  }

  lemma {:induction false} ViewIsNamed(lists: seq<SigList>, added: multiset<nat>, k: nat)
    requires Inv(lists, added) && AllReadable(lists) && k <= |lists|
    ensures View(lists, k) == EslsNamed(Named(lists, k))
    decreases k
  {
    hide Inv, AllReadable, EslNamed, EslOf;
    if k == 0 {
      ViewNone(lists);
    } else {
      ViewIsNamed(lists, added, k - 1);
      ViewNext(lists, k - 1);
      if lists[k - 1].entries != [] {
        InvUniform(lists, added, k - 1);
        EslOfUniform(lists[k - 1]);
        assert Named(lists, k)[..|Named(lists, k)| - 1] == Named(lists, k - 1);
      }
    }
  }

  lemma EslOfUniform(l: SigList)
    requires Uniform(l) && Readable(l)
    ensures EslOf(l) == EslNamed((l.algorithm, l.entries))
  {
    UniformReadable(l);
    hide TypeGuid;
  }

  /** The realised bytes are a function of the map and the direction. */
  lemma Canonical(lists1: seq<SigList>, lists2: seq<SigList>, a1: Ideal, a2: Ideal, d: bool)
    requires Twins(lists1, lists2, a1, a2, d)
    ensures AllReadable(lists1) && AllReadable(lists2)
    ensures Realized(lists1) == Realized(lists2)
  {
    hide *;
    TwinsSwap(lists1, lists2, a1, a2, d);
    TwinsSwap(lists2, lists1, a2, a1, d);
    InvReadable(lists1, a1.added);
    InvReadable(lists2, a2.added);
    TwinsNamed(lists1, lists2, a1, a2, d);
    ViewIsNamed(lists1, a1.added, |lists1|);
    ViewIsNamed(lists2, a2.added, |lists2|);
    RealizedIs(lists1);
    RealizedIs(lists2);
  }

  /** A run from an empty database with both sort flags on, no list size wrapped. */
  ghost predicate SortedRun(states: seq<State>, ops: seq<Op>, d: bool) {
    && (forall op :: op in ops ==> Allowed(op) && !op.FlagOp?)
    && Unwrapped(MapRun(ops).added)
    && Runs(states, ops) && states[0].flags == Flags(true, true, d)
  }

  lemma SortedRunGives(states: seq<State>, ops: seq<Op>, d: bool)
    requires SortedRun(states, ops, d)
    ensures Refines(states[|ops|].lists, MapRun(ops)) && Ordered(d, states[|ops|].lists)
  {
    RunRefines(states, ops);
    RunOrdered(states, ops, d);
    hide Refines, Ordered, Allowed, Does, MapRun;
  }

  /** Insertion order is invisible: runs that reach the same map realise the same bytes. */
  lemma OrderInvisible(states1: seq<State>, ops1: seq<Op>, states2: seq<State>, ops2: seq<Op>, d: bool)
    requires SortedRun(states1, ops1, d) && SortedRun(states2, ops2, d)
    requires MapRun(ops1).store == MapRun(ops2).store
    ensures var a, b := states1[|ops1|].lists, states2[|ops2|].lists;
      AllReadable(a) && AllReadable(b) && Realized(a) == Realized(b)
  {
    SortedRunGives(states1, ops1, d);
    SortedRunGives(states2, ops2, d);
    hide Refines, Ordered, Allowed, Does, MapRun, Realized, AllReadable;
    var a, b := states1[|ops1|].lists, states2[|ops2|].lists;
    Canonical(a, b, MapRun(ops1), MapRun(ops2), d);
  }

  // ---------- parsing what was realised ----------

  function FetchedVisit(v: Visited): (f: Fetched)
    requires v.algorithm < TYPE_MAX
  {
    Fetched(v.signum == 0, TypeGuid(v.algorithm), v.entry.owner, v.entry.data, false)
  }

  lemma {:induction false} ItemsSnoc(ls: seq<Esl>, l: Esl)
    ensures Items(ls + [l]) == Items(ls) + ItemsOf(l)
  {
    hide ItemsOf;
    if ls == [] {
      assert ls + [l] == [l] && [l][1..] == [];
      assert Items([l]) == ItemsOf(l) + Items([]);
    } else {
      calc {
        Items(ls + [l]);
        { assert (ls + [l])[1..] == ls[1..] + [l]; }
        ItemsOf(ls[0]) + Items(ls[1..] + [l]);
        { ItemsSnoc(ls[1..], l); }
        ItemsOf(ls[0]) + (Items(ls[1..]) + ItemsOf(l));
        Items(ls) + ItemsOf(l);
      }
    }
  }

  predicate SameItem(x: Outcome, v: Visited) {
    v.algorithm < TYPE_MAX
    && x == Item(v.signum == 0, TypeGuid(v.algorithm), v.entry.owner, v.entry.data)
  }

  lemma ItemsOfVisits(l: SigList, i: nat, j: nat)
    requires Readable(l) && j < |l.entries|
    ensures SameItem(ItemsOf(EslOf(l))[j], VisitsOf(l, i)[j])
  {
    hide TypeGuid;
    assert SeenAll(l)[j] == Seen(l, j);
  }

  /** The file holds what a visit shows, in the same order. */
  lemma {:induction false} FileShowsVisits(lists: seq<SigList>, k: nat)
    requires AllReadable(lists) && k <= |lists|
    ensures |Items(View(lists, k))| == |Visits(lists, k)|
    ensures forall v :: 0 <= v < |Visits(lists, k)| ==> SameItem(Items(View(lists, k))[v], Visits(lists, k)[v])
    decreases k
  {
    hide SameItem, ItemsOf, VisitsOf, EslOf, Readable, AllReadable, View;
    if k == 0 {
      ViewNone(lists);
    } else {
      FileShowsVisits(lists, k - 1);
      ViewNext(lists, k - 1);
      var l, c := lists[k - 1], |Visits(lists, k - 1)|;
      hide Items;
      if l.entries == [] {
        assert Visits(lists, k) == Visits(lists, k - 1);
      } else {
        ItemsSnoc(View(lists, k - 1), EslOf(l));
        EslEntries(l);
        forall v | 0 <= v < |Visits(lists, k)| ensures SameItem(Items(View(lists, k))[v], Visits(lists, k)[v]) {
          if v >= c {
            ItemsOfVisits(l, k - 1, v - c);
          }
        }
      }
    }
  }

  lemma EslEntries(l: SigList)
    requires Readable(l)
    ensures |EslOf(l).entries| == |l.entries|
  {
  }

  lemma ContentsAreVisits(lists: seq<SigList>)
    requires AllReadable(lists)
    ensures |Contents(View(lists, |lists|))| == |Visits(lists, |lists|)|
    ensures forall v :: 0 <= v < |Visits(lists, |lists|)| ==>
      && Visits(lists, |lists|)[v].algorithm < TYPE_MAX
      && Contents(View(lists, |lists|))[v] == FetchedVisit(Visits(lists, |lists|)[v])
  {
    FileShowsVisits(lists, |lists|);
    hide View, Items, Visits, TypeGuid;
    ItemsAreItems(View(lists, |lists|));
  }

  ghost predicate Visible(vs: seq<Visited>, alg: nat, e: Entry) {
    exists v :: v in vs && v.algorithm == alg && v.entry == e
  }

  lemma VisibleSnoc(vs: seq<Visited>, last: Visited, alg: nat, e: Entry)
    ensures Visible(vs + [last], alg, e) <==> Visible(vs, alg, e) || (last.algorithm == alg && last.entry == e)
  {
    if Visible(vs, alg, e) {
      var v :| v in vs && v.algorithm == alg && v.entry == e;
      assert v in vs + [last];
    }
    assert last in vs + [last];
  }

  lemma VisibleApart(vs: seq<Visited>, last: Visited, alg: nat, e: Entry)
    requires DistinctBy(vs + [last], VisitKey) && Visible(vs, alg, e)
    ensures (alg, e.data) != VisitKey(last)
  {
    var v :| v in vs && v.algorithm == alg && v.entry == e;
    var i :| 0 <= i < |vs| && vs[i] == v;
    assert VisitKey((vs + [last])[i]) != VisitKey((vs + [last])[|vs|]);
  }

  /** Loading distinct entries into the empty map gives exactly those. */
  lemma {:induction false} LoadsVisible(vs: seq<Visited>, fs: seq<Fetched>, alg: nat, e: Entry)
    requires |fs| == |vs| && DistinctBy(vs, VisitKey)
    requires forall v :: 0 <= v < |vs| ==> vs[v].algorithm < TYPE_MAX && fs[v] == FetchedVisit(vs[v])
    ensures Maps(MapAddAll(NOTHING, fs).store, alg, e) <==> Visible(vs, alg, e)
    decreases |vs|
  {
    hide TypeGuid, TypeOf;
    if vs != [] {
      var k := |vs| - 1;
      var front, last := vs[..k], vs[k];
      var a := MapAddAll(NOTHING, fs[..k]);
      var m := a.store;
      assert vs == front + [last];
      LoadsVisible(front, fs[..k], alg, e);
      VisibleSnoc(front, last, alg, e);
      TypeRoundTrip(last.algorithm);
      if VisitKey(last) in m {
        var e' := Entry(m[VisitKey(last)], last.entry.data);
        LoadsVisible(front, fs[..k], last.algorithm, e');
        VisibleApart(front, last, last.algorithm, e');
        assert false;
      }
    }
  }

  lemma MapsEqual(m: Store, m': Store)
    requires forall alg, e :: Maps(m, alg, e) <==> Maps(m', alg, e)
    ensures m == m'
  {
    forall k ensures k in m <==> k in m' {
      if k in m {
        assert Maps(m, k.0, Entry(m[k], k.1));
      }
      if k in m' {
        assert Maps(m', k.0, Entry(m'[k], k.1));
      }
    }
    forall k | k in m ensures m[k] == m'[k] {
      assert Maps(m, k.0, Entry(m[k], k.1));
    }
  }

  lemma LoadsMap(lists: seq<SigList>, added: multiset<nat>, m: Store)
    requires Inv(lists, added) && Represents(lists, m) && AllReadable(lists)
    ensures MapAddAll(NOTHING, Contents(View(lists, |lists|))).store == m
  {
    VisitShowsMap(lists, added, m);
    ContentsAreVisits(lists);
    var vs, fs := Visits(lists, |lists|), Contents(View(lists, |lists|));
    hide Inv, AllReadable, View, Contents, Visits, Represents, Maps, MapAddAll, FetchedVisit, DistinctBy;
    forall alg, e ensures Maps(m, alg, e) <==> Maps(MapAddAll(NOTHING, fs).store, alg, e) {
      LoadsVisible(vs, fs, alg, e);
    }
    MapsEqual(m, MapAddAll(NOTHING, fs).store);
  }

  // ---------- no map needs more additions than the run that built it ----------

  function KeysOf(m: Store, alg: nat): (ks: set<(nat, seq<byte>)>) {
    set k | k in m.Keys && k.0 == alg
  }

  lemma KeysAdded(m: Store, owner: Guid, alg: nat, data: seq<byte>, x: nat)
    requires (alg, data) !in m
    ensures |KeysOf(m[(alg, data) := owner], x)| == |KeysOf(m, x)| + if x == alg then 1 else 0
  {
    assert KeysOf(m[(alg, data) := owner], x) == KeysOf(m, x) + if x == alg then {(alg, data)} else {};
  }

  lemma KeysRemoved(m: Store, ks: set<(nat, seq<byte>)>, x: nat)
    ensures |KeysOf(m - ks, x)| <= |KeysOf(m, x)|
  {
    Fewer(KeysOf(m - ks, x), KeysOf(m, x));
  }

  lemma Fewer<T>(s: set<T>, t: set<T>)
    requires s <= t
    ensures |s| <= |t|
  {
    assert t == s + (t - s);
  }

  /** Every key took an addition. */
  lemma {:induction false} AddAllCounts(a: Ideal, fs: seq<Fetched>, x: nat)
    ensures |KeysOf(MapAddAll(a, fs).store, x)| - MapAddAll(a, fs).added[x] == |KeysOf(a.store, x)| - a.added[x]
    decreases |fs|
  {
    hide KeysOf;
    if fs != [] {
      AddAllCounts(a, fs[..|fs| - 1], x);
      hide MapAddAll, TypeOf;
      FetchedCounts(MapAddAll(a, fs[..|fs| - 1]), fs[|fs| - 1], x);
    }
  }

  lemma AddCounts(a: Ideal, owner: Guid, alg: nat, data: seq<byte>, x: nat)
    ensures var a' := MapAdd(a, owner, alg, data); |KeysOf(a'.store, x)| - a'.added[x] == |KeysOf(a.store, x)| - a.added[x]
  {
    hide KeysOf;
    if (alg, data) !in a.store {
      KeysAdded(a.store, owner, alg, data, x);
    }
  }

  lemma FetchedCounts(a: Ideal, f: Fetched, x: nat)
    ensures var a' := MapFetched(a, f); |KeysOf(a'.store, x)| - a'.added[x] == |KeysOf(a.store, x)| - a.added[x]
  {
    hide KeysOf, TypeOf, MapAdd;
    if TypeOf(f.kind) != -1 {
      AddCounts(a, f.owner, TypeOf(f.kind), f.data, x);
    }
  }

  lemma {:induction false} RunCounts(ops: seq<Op>, x: nat)
    ensures |KeysOf(MapRun(ops).store, x)| <= MapRun(ops).added[x]
    decreases |ops|
  {
    hide KeysOf, MapAdd, MapAddAll, Contents;
    if ops == [] {
      NoKeys(x);
    } else {
      var a := MapRun(ops[..|ops| - 1]);
      RunCounts(ops[..|ops| - 1], x);
      match ops[|ops| - 1]
      case AddOp(owner, alg, data) => AddCounts(a, owner, alg, data, x);
      case DelOp(owner, alg, data) => KeysRemoved(a.store, {(alg, data)}, x);
      case ParseOp(file) => AddAllCounts(a, Contents(file), x);
      case FlagOp(_, _) =>
    }
  }

  lemma NoKeys(x: nat)
    ensures KeysOf(NOTHING.store, x) == {}
  {
  }

  /** Building a map anew wraps no list size that the run did not wrap. */
  lemma RebuildUnwrapped(ops: seq<Op>, fs: seq<Fetched>)
    requires Unwrapped(MapRun(ops).added) && MapAddAll(NOTHING, fs).store == MapRun(ops).store
    ensures Unwrapped(MapAddAll(NOTHING, fs).added)
  {
    hide MapAddAll, MapRun, KeysOf;
    forall x | x == SHA1 || x == SHA224 ensures MapAddAll(NOTHING, fs).added[x] <= MapRun(ops).added[x] {
      NoKeys(x);
      AddAllCounts(NOTHING, fs, x);
      RunCounts(ops, x);
    }
  }

  lemma UniformRight(l: SigList)
    requires Uniform(l) && Readable(l) && l.entries != []
    ensures RightEsl(EslOf(l))
  {
    UniformReadable(l);
    SeenWellFormed(l);
    SizedNotEmpty(l.algorithm);
    TypeRoundTrip(l.algorithm);
    hide TypeGuid, TypeOf, TableSize, DistinctBy;
    assert l.entries[0] in l.entries;
  }

  lemma {:induction false} ViewRight(lists: seq<SigList>, added: multiset<nat>, k: nat)
    requires Inv(lists, added) && AllReadable(lists) && k <= |lists|
    ensures forall l :: l in View(lists, k) ==> RightEsl(l)
    decreases k
  {
    hide Inv, EslOf, RightEsl, AllReadable, View;
    if k == 0 {
      ViewNone(lists);
    } else {
      ViewRight(lists, added, k - 1);
      ViewNext(lists, k - 1);
      if lists[k - 1].entries != [] {
        InvUniform(lists, added, k - 1);
        UniformRight(lists[k - 1]);
      }
    }
  }

  lemma RealizedRight(lists: seq<SigList>, added: multiset<nat>)
    requires Inv(lists, added) && AllReadable(lists)
    requires 0 < |Realized(lists)| < TWO64 && Sizeable(View(lists, |lists|))
    ensures RightFile(View(lists, |lists|)) && Realized(lists) == Layout(View(lists, |lists|))
  {
    ViewRight(lists, added, |lists|);
    hide View, RightEsl, Inv, AllReadable, Sizeable;
  }

  lemma RealizedNothing(lists: seq<SigList>, m: Store, flags: Flags, b: seq<byte>, p: Parsing, lists': seq<SigList>)
    requires AllReadable(lists) && Realized(lists) == [] == b
    requires MapAddAll(NOTHING, Contents(View(lists, |lists|))).store == m
    requires ParsePost(flags, [], b, p, lists')
    ensures p == Refused && lists' == [] && m == NOTHING.store && AllReadable(lists') && Realized(lists') == []
  {
    assert Contents([]) == [];
    hide Realized, AllReadable, View, Contents, Fetches;
  }

  lemma ViewSizeable(lists: seq<SigList>)
    requires AllReadable(lists) && |Realized(lists)| < TWO32
    ensures Sizeable(View(lists, |lists|))
  {
    SmallSizeable(View(lists, |lists|));
    hide View;
  }

  /** Parsing the realised bytes into an empty database with the same flags and realising again gives the same
      map and the same bytes: always below 4 GiB, where the parse succeeds unless there are no bytes, and from there on
      for lists that are each smaller, where it reads past the buffer with that database built. */
  lemma ParseRealizedIdempotent(states: seq<State>, ops: seq<Op>, d: bool, p: Parsing, lists': seq<SigList>)
    requires SortedRun(states, ops, d) && AllReadable(states[|ops|].lists) && |Realized(states[|ops|].lists)| < TWO64
    requires ParsePost(Flags(true, true, d), [], Realized(states[|ops|].lists), p, lists')
    ensures var n := |Realized(states[|ops|].lists)|;
      (n == 0 ==> p == Refused) && (0 < n < TWO32 ==> p == Parsed)
    ensures var lists := states[|ops|].lists;
      |Realized(lists)| < TWO32 || Sizeable(View(lists, |lists|)) ==>
        && (|Realized(lists)| >= TWO32 ==> p == Overran)
        && AllReadable(lists') && Realized(lists') == Realized(lists) && Represents(lists', MapRun(ops).store)
  {
    var lists, n := states[|ops|].lists, |Realized(states[|ops|].lists)|;
    assert (0 < n < TWO32 ==> EndingAt(n) == Parsed) && (n >= TWO32 ==> EndingAt(n) == Overran);
    hide *;
    if n < TWO32 {
      ViewSizeable(lists);
    }
    if Sizeable(View(lists, |lists|)) {
      SizeableIdempotent(states, ops, d, p, lists');
    }
  }

  lemma SizeableIdempotent(states: seq<State>, ops: seq<Op>, d: bool, p: Parsing, lists': seq<SigList>)
    requires SortedRun(states, ops, d) && AllReadable(states[|ops|].lists)
    requires Sizeable(View(states[|ops|].lists, |states[|ops|].lists|)) && |Realized(states[|ops|].lists)| < TWO64
    requires ParsePost(Flags(true, true, d), [], Realized(states[|ops|].lists), p, lists')
    ensures var n := |Realized(states[|ops|].lists)|; p == if n == 0 then Refused else EndingAt(n)
    ensures AllReadable(lists') && Realized(lists') == Realized(states[|ops|].lists)
    ensures Represents(lists', MapRun(ops).store)
  {
    var lists, a, flags := states[|ops|].lists, MapRun(ops), Flags(true, true, d);
    SortedRunGives(states, ops, d);
    hide *;
    RefinesInv(lists, a);
    LoadsMap(lists, a.added, a.store);
    EmptyRefines();
    var file := View(lists, |lists|);
    if Realized(lists) == [] {
      RealizedNothing(lists, a.store, flags, Realized(lists), p, lists');
      RefinesInv(lists', NOTHING);
    } else {
      RealizedRight(lists, a.added);
      var a' := MapAddAll(NOTHING, Contents(file));
      RebuildUnwrapped(ops, Contents(file));
      EmptyOrdered(d);
      ParseRefines(flags, [], NOTHING, file, p, lists');
      ParseOrdered([], NOTHING, d, file, p, lists');
      RefinesInv(lists', a');
      Canonical(lists', lists, a', a, d);
    }
  }

  /** A database of one list of 89478485 SHA-256 values: its size field says 12, and the parser refuses it. */
  lemma WrappedListRefused(lists: seq<SigList>, l: Esl, flags: Flags, p: Parsing, lists': seq<SigList>)
    requires AllReadable(lists) && View(lists, |lists|) == [l] && Size(l) == 48 && |l.entries| == WRAPPED
    requires ParsePost(flags, [], Realized(lists), p, lists')
    ensures |Realized(lists)| == TWO32 + 12 && p == Refused && lists' == []
  {
    SizeWraps(l);
    var b := Realized(lists);
    RealizedIs(lists);
    StartMoving(b);
    hide View, Layout, AllReadable, Realized, Start, Step, Moving;
    FetchesStep(Start(b));
    assert Fetches(Start(b)) == ([], Refused);
  }

  lemma EmptyOrdered(d: bool)
    ensures Ordered(d, [])
  {
  }

  // ---------- on the engine ----------

  lemma RunsSnoc(states: seq<State>, ops: seq<Op>, s: State, op: Op)
    requires (forall x :: x in ops ==> Allowed(x)) && Allowed(op) && Runs(states, ops) && Does(states[|ops|], op, s)
    ensures forall x :: x in ops + [op] ==> Allowed(x)
    ensures Runs(states + [s], ops + [op])
  {
    hide Allowed, Does;
    var ss, os := states + [s], ops + [op];
    forall i | 0 <= i < |os| ensures Allowed(os[i]) && Does(ss[i], os[i], ss[i + 1]) {
      if i < |ops| {
        assert os[i] == ops[i] && ops[i] in ops;
      }
    }
  }

  lemma RunsNone(s: State)
    requires s.lists == [] && s.flags.sort
    ensures Runs([s], [])
  {
  }

  lemma SortedRunIs(states: seq<State>, ops: seq<Op>, d: bool)
    requires (forall op :: op in ops ==> Allowed(op) && !op.FlagOp?) && Unwrapped(MapRun(ops).added)
    requires Runs(states, ops) && |states| == |ops| + 1 && states[0].flags == Flags(true, true, d)
    ensures SortedRun(states, ops, d)
  {
    hide Allowed, Unwrapped, Runs, MapRun;
  }

  /** Operations on an empty database make a run, unless one of them reads past something; then those before it do. */
  method ApplyAll(db: Database, ops: seq<Op>) returns (overran: bool, n: nat, ghost states: seq<State>)
    requires (forall op :: op in ops ==> Allowed(op)) && db.lists == [] && db.flags.sort
    modifies db
    ensures n <= |ops| && (overran <==> n < |ops|) && (forall op :: op in ops[..n] ==> Allowed(op))
    ensures |states| == n + 1 && Runs(states, ops[..n]) && states[0] == old(State(db.flags, db.lists))
    ensures overran ==> Allowed(ops[n]) && CanOverrun(states[n], ops[n])
    ensures !overran ==> states[n] == State(db.flags, db.lists)
  {
    hide *;
    states := [State(db.flags, db.lists)];
    RunsNone(states[0]);
    assert ops[..0] == [];
    n := 0;
    overran := false;
    while n < |ops|
      invariant n <= |ops| && forall op :: op in ops[..n] ==> Allowed(op)
      invariant |states| == n + 1 && Runs(states, ops[..n])
      invariant states[0] == old(State(db.flags, db.lists)) && states[n] == State(db.flags, db.lists)
    {
      assert ops[n] in ops;
      overran := Apply(db, ops[n]);
      if overran {
        return;
      }
      ghost var s := State(db.flags, db.lists);
      RunsSnoc(states, ops[..n], s, ops[n]);
      assert ops[..n + 1] == ops[..n] + [ops[n]];
      states := states + [s];
      n := n + 1;
    }
    overran := false;
  }

  lemma {:induction false} MapRunPrefix(ops: seq<Op>, n: nat)
    requires n <= |ops|
    ensures MapRun(ops[..n]).added <= MapRun(ops).added
    decreases |ops|
  {
    if n < |ops| {
      var k := |ops| - 1;
      MapRunPrefix(ops[..k], n);
      assert ops[..k][..n] == ops[..n];
      OpGrows(MapRun(ops[..k]), ops[k]);
      hide MapOp;
    } else {
      assert ops[..n] == ops;
    }
  }

  /** The state before an operation of a run, where the operation may only overrun by parsing 4 GiB. */
  lemma PrefixOverruns(states: seq<State>, ops: seq<Op>, n: nat)
    requires (forall op :: op in ops ==> Allowed(op)) && Unwrapped(MapRun(ops).added) && n < |ops|
    requires (forall op :: op in ops[..n] ==> Allowed(op)) && Runs(states, ops[..n]) && |states| == n + 1
    ensures Allowed(ops[n]) && (CanOverrun(states[n], ops[n]) ==> Overruns(ops[n]))
    ensures Overruns(ops[n]) ==> forall s' :: !Does(states[n], ops[n], s')
  {
    hide *;
    assert ops[n] in ops;
    MapRunPrefix(ops, n);
    MapRunPrefix(ops, n + 1);
    UnwrappedBelow(MapRun(ops[..n]).added, MapRun(ops).added);
    UnwrappedBelow(MapRun(ops[..n + 1]).added, MapRun(ops).added);
    RunRefines(states, ops[..n]);
    assert ops[..n + 1] == ops[..n] + [ops[n]];
    MapRunLast(ops[..n], ops[n]);
    RightOverruns(states[n], MapRun(ops[..n]), ops[n]);
  }

  lemma MapRunLast(ops: seq<Op>, op: Op)
    ensures MapRun(ops + [op]) == MapOp(MapRun(ops), op)
  {
    assert (ops + [op])[..|ops|] == ops;
    hide MapOp;
  }

  lemma RunStep(states: seq<State>, ops: seq<Op>, i: nat)
    requires (forall op :: op in ops ==> Allowed(op)) && Runs(states, ops) && i < |ops|
    ensures |states| == |ops| + 1 && Allowed(ops[i]) && Does(states[i], ops[i], states[i + 1])
    ensures (forall op :: op in ops[..i] ==> Allowed(op)) && Runs(states[..i + 1], ops[..i])
  {
    hide Allowed, Does;
    assert ops[i] in ops;
    forall op | op in ops[..i] ensures Allowed(op) {
      assert op in ops;
    }
  }

  /** A run parses less than 4 GiB in each of its operations. */
  lemma RunsStayInside(states: seq<State>, ops: seq<Op>, i: nat)
    requires (forall op :: op in ops ==> Allowed(op)) && Unwrapped(MapRun(ops).added) && Runs(states, ops) && i < |ops|
    ensures Allowed(ops[i]) && !Overruns(ops[i])
  {
    hide *;
    RunStep(states, ops, i);
    PrefixOverruns(states[..i + 1], ops, i);
  }

  /** Applies the operations to a new database with both sort flags on and realises it; None if and only if one of
      them parses 4 GiB or more. Equal maps give equal bytes, whatever the operations were. */
  method Build(ops: seq<Op>, d: bool) returns (out: Option<seq<byte>>, ghost states: seq<State>)
    requires (forall op :: op in ops ==> Allowed(op) && !op.FlagOp?) && Unwrapped(MapRun(ops).added)
    ensures out.None? <==> exists op :: op in ops && Overruns(op)
    ensures out.Some? ==> SortedRun(states, ops, d)
    ensures out.Some? ==> AllReadable(states[|ops|].lists) && out == Some(Realized(states[|ops|].lists))
  {
    var db := new Database();
    var _ := db.SetBool(1, true);
    var _ := db.SetBool(2, d);
    assert db.flags == Flags(true, true, d);
    hide *;
    var overran, n;
    overran, n, states := ApplyAll(db, ops);
    if overran {
      PrefixOverruns(states, ops, n);
      assert ops[n] in ops;
      return None, states;
    }
    assert ops[..n] == ops;
    forall i | 0 <= i < |ops| ensures !Overruns(ops[i]) {
      RunsStayInside(states, ops, i);
    }
    SortedRunIs(states, ops, d);
    SortedRunGives(states, ops, d);
    RefinesInv(db.lists, MapRun(ops));
    InvReadable(db.lists, MapRun(ops).added);
    AllKnown(db.lists);
    out := Realize(db);
  }
}
