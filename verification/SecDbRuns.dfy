/**
  The database as a map: with lists sorted by type, every run of additions, deletions and parses over
  hash and RSA-2048 entries refines a map from type and data to owner.
 */
module SecDbRuns {
  import opened Bytes
  import opened EslIter
  import opened Guids
  import opened Sorting
  import opened SecDb
  import opened SecDbFile

  // ---------- the map ----------

  type Store = map<(nat, seq<byte>), Guid>

  predicate Maps(m: Store, alg: nat, e: Entry) {
    (alg, e.data) in m && m[(alg, e.data)] == e.owner
  }

  /** A map, and the types of the additions that found their data absent. */
  datatype Ideal = Ideal(store: Store, added: multiset<nat>)

  /** Data that is present keeps its owner. */
  function MapAdd(a: Ideal, owner: Guid, alg: nat, data: seq<byte>): (a': Ideal) {
    if (alg, data) in a.store then a else Ideal(a.store[(alg, data) := owner], a.added + multiset{alg})
  }

  /** Only the owner of the data can remove it. */
  function MapDel(a: Ideal, owner: Guid, alg: nat, data: seq<byte>): (a': Ideal) {
    if Maps(a.store, alg, Entry(owner, data)) then a.(store := a.store - {(alg, data)}) else a
  }

  predicate RightSize(alg: nat, data: seq<byte>) {
    Sized(alg) && |data| == TableSize(alg)
  }

  // ---------- what every reachable database satisfies ----------

  // The sizes of lists are 32-bit numbers that deletion never lowers, and a list of size zero matches any type.
  // These are the numbers of additions that first bring a size back to zero.
  const SHA1_WRAP := 835_132_529
  const SHA224_WRAP := 683_290_251

  /** The list size after `n` additions. */
  function SizeAfter(alg: nat, n: nat): (sz: nat)
    requires alg < TYPE_MAX
  {
    U32(28 + EntrySize(alg) * n)
  }

  /** No list size has come back to zero. */
  predicate Unwrapped(added: multiset<nat>) {
    added[SHA1] < SHA1_WRAP && added[SHA224] < SHA224_WRAP
  }

  function DataOf(e: Entry): (d: seq<byte>) { e.data }
  function AlgorithmOf(l: SigList): (a: nat) { l.algorithm }

  ghost predicate Uniform(l: SigList) {
    && Sized(l.algorithm) && l.sigsz == EntrySize(l.algorithm)
    && (forall e :: e in l.entries ==> |e.data| == TableSize(l.algorithm))
    && DistinctBy(l.entries, DataOf)
  }

  ghost predicate Good(l: SigList, n: nat) {
    Uniform(l) && l.nsigs == n > 0 && l.listsz == SizeAfter(l.algorithm, n) && l.listsz != 0
  }

  ghost predicate Inv(lists: seq<SigList>, added: multiset<nat>) {
    && (forall l :: l in lists ==> Good(l, added[l.algorithm]))
    && DistinctBy(lists, AlgorithmOf)
    && (forall alg :: alg in added ==> Listed(lists, alg))
  }

  ghost predicate Listed(lists: seq<SigList>, alg: nat) {
    exists l :: l in lists && l.algorithm == alg
  }

  ghost predicate Present(lists: seq<SigList>, alg: nat, e: Entry) {
    exists l :: l in lists && l.algorithm == alg && e in l.entries
  }

  ghost predicate Represents(lists: seq<SigList>, m: Store) {
    forall alg, e :: Present(lists, alg, e) <==> Maps(m, alg, e)
  }

  // ---------- choosing a list ----------

  /** Entry sizes that are multiples of sixteen never bring a list size back to zero. */
  lemma NeverZero(x: nat)
    ensures U32(28 + 16 * x) != 0
  {
    assert (28 + 16 * x) % 8 == 4;
  }

  lemma Sha1Zero(n: nat)
    ensures n < SHA1_WRAP ==> U32(28 + 36 * n) != 0
    ensures n == SHA1_WRAP ==> U32(28 + 36 * n) == 0
  {
  }

  lemma Sha224Zero(n: nat)
    ensures n < SHA224_WRAP ==> U32(28 + 44 * n) != 0
    ensures n == SHA224_WRAP ==> U32(28 + 44 * n) == 0
  {
  }

  /** Below the two bounds no list size is zero, and there is no bound for the other types. */
  lemma SizeNotZero(alg: nat, n: nat)
    requires Sized(alg) && (alg == SHA1 ==> n < SHA1_WRAP) && (alg == SHA224 ==> n < SHA224_WRAP)
    ensures SizeAfter(alg, n) != 0
  {
    hide U32;
    if alg == SHA1 {
      Sha1Zero(n);
    } else if alg == SHA224 {
      Sha224Zero(n);
    } else {
      var k := if alg == SHA256 then 3 else if alg == SHA384 then 4 else if alg == SHA512 then 5 else 17;
      assert EntrySize(alg) == 16 * k;
      assert EntrySize(alg) * n == 16 * (k * n);
      NeverZero(k * n);
    }
  }

  lemma GoodMatches(l: SigList, n: nat, alg: nat)
    requires Good(l, n) && Sized(alg)
    ensures Matches(l, alg, EntrySize(alg)) <==> l.algorithm == alg
    ensures l.sigsz == EntrySize(l.algorithm)
  {
  }

  /** The list found is the one of the type, or a new one. */
  lemma SelectFinds(flags: Flags, lists: seq<SigList>, added: multiset<nat>, alg: nat, data: seq<byte>)
    requires Inv(lists, added) && RightSize(alg, data)
    ensures var (ls, k) := Select(flags, lists, alg, |data| + 16, false);
      if k < |lists| then ls == lists && lists[k].algorithm == alg
      else k == |lists| && ls == lists + [NewList(flags, alg, EntrySize(alg))]
           && forall l :: l in lists ==> l.algorithm != alg
  {
    FindFinds(lists, added, alg, |data| + 16);
    SelectIs(flags, lists, alg, |data| + 16);
    hide Inv, Find, Select, NewList, EntrySize, TableSize, Sized;
    var found := Find(lists, alg, |data| + 16);
    if found.Some? {
      var k := found.value;
      assert lists[k := lists[k].(algorithm := alg, sigsz := EntrySize(alg))] == lists;
    }
  }

  lemma FindFinds(lists: seq<SigList>, added: multiset<nat>, alg: nat, datasz: nat)
    requires Inv(lists, added) && Sized(alg)
    ensures alg < TYPE_MAX
    ensures match Find(lists, alg, datasz)
      case Some(k) => k < |lists| && lists[k].algorithm == alg && lists[k].sigsz == EntrySize(alg)
      case None => forall l :: l in lists ==> l.algorithm != alg
  {
    SizedNotEmpty(alg);
    forall l | l in lists ensures Matches(l, alg, EntrySize(alg)) ==> l.algorithm == alg && l.sigsz == EntrySize(alg) {
      GoodMatches(l, added[l.algorithm], alg);
    }
    forall l | l in lists ensures l.algorithm == alg ==> Matches(l, alg, EntrySize(alg)) {
      GoodMatches(l, added[l.algorithm], alg);
    }
    hide Matches, TableSize, EntrySize, Inv, Sized;
    assert forall i :: 0 <= i < |lists| ==> lists[i] in lists;
  }

  lemma SelectIs(flags: Flags, lists: seq<SigList>, alg: nat, sz: nat)
    requires Sized(alg)
    ensures Select(flags, lists, alg, sz, false) == match Find(lists, alg, sz)
      case Some(k) => (lists[k := lists[k].(algorithm := alg, sigsz := EntrySize(alg))], k)
      case None => (lists + [NewList(flags, alg, EntrySize(alg))], |lists|)
  {
    SizedNotEmpty(alg);
    hide Find, NewList, TableSize;
  }

  lemma DuplicateIs(l: SigList, data: seq<byte>)
    requires Uniform(l) && |data| == TableSize(l.algorithm)
    ensures Duplicate(l, data) <==> exists e :: e in l.entries && e.data == data
  {
    hide TableSize, EntrySize;
    forall i | 0 <= i < |l.entries| ensures SameData(data, l.entries[i], |data|) <==> l.entries[i].data == data {
      assert l.entries[i] in l.entries;
    }
    if e :| e in l.entries && e.data == data {
      var i :| 0 <= i < |l.entries| && l.entries[i] == e;
      assert SameData(data, l.entries[i], |data|);
    }
  }

  // ---------- growing a list ----------

  lemma {:induction false} Grow(l: SigList, owner: Guid, data: seq<byte>, es: seq<Entry>)
    requires Uniform(l) && SizeAfter(l.algorithm, l.nsigs + 1) != 0
    requires |data| == TableSize(l.algorithm) && forall e :: e in l.entries ==> e.data != data
    requires EntriesSorted(Appended(l, owner, data), |data|, es)
    ensures Good(Appended(l, owner, data).(entries := es), l.nsigs + 1)
    ensures Appended(l, owner, data).algorithm == l.algorithm
    ensures forall e :: e in es <==> e in l.entries || e == Entry(owner, data)
  {
    SizedNotEmpty(l.algorithm);
    var l' := Appended(l, owner, data);
    AppendedIs(l, owner, data);
    SameMembers(es, l'.entries);
    SnocDistinct(l.entries, Entry(owner, data));
    DistinctPermuted(es, l'.entries, DataOf);
    hide Appended, EntriesSorted, TableSize, U32;
  }

  lemma SizedNotEmpty(alg: nat)
    requires Sized(alg)
    ensures 0 < TableSize(alg) <= 256 && alg != X509_CERT && alg < TYPE_MAX && EntrySize(alg) == TableSize(alg) + 16
  {
  }

  lemma AppendedIs(l: SigList, owner: Guid, data: seq<byte>)
    requires l.algorithm != X509_CERT && data != []
    ensures Appended(l, owner, data) ==
      l.(entries := l.entries + [Entry(owner, data)], nsigs := l.nsigs + 1, listsz := U32(28 + l.sigsz * (l.nsigs + 1)))
  {
  }

  lemma SnocDistinct(es: seq<Entry>, e: Entry)
    requires DistinctBy(es, DataOf) && forall x :: x in es ==> x.data != e.data
    ensures DistinctBy(es + [e], DataOf)
  {
    forall i, j | 0 <= i < j < |es| + 1 ensures DataOf((es + [e])[i]) != DataOf((es + [e])[j]) {
      assert (es + [e])[i] in es;
    }
  }

  // ---------- changing the sequence of lists ----------

  lemma ListedReplaced(lists: seq<SigList>, k: nat, l: SigList, alg: nat)
    requires k < |lists| && l.algorithm == lists[k].algorithm && Listed(lists, alg)
    ensures Listed(lists[k := l], alg)
  {
    var x :| x in lists && x.algorithm == alg;
    var i :| 0 <= i < |lists| && lists[i] == x;
    assert lists[k := l][i].algorithm == alg;
    assert lists[k := l][i] in lists[k := l];
  }

  lemma ReplaceInv(lists: seq<SigList>, added: multiset<nat>, k: nat, l: SigList)
    requires Inv(lists, added) && k < |lists| && l.algorithm == lists[k].algorithm && Good(l, added[l.algorithm] + 1)
    ensures Inv(lists[k := l], added + multiset{l.algorithm})
  {
    hide Good, Listed;
    var ls, added' := lists[k := l], added + multiset{l.algorithm};
    forall x | x in ls ensures Good(x, added'[x.algorithm]) {
      var i :| 0 <= i < |ls| && ls[i] == x;
      if i != k {
        assert AlgorithmOf(lists[i]) != AlgorithmOf(lists[k]);
        assert x in lists;
      }
    }
    assert forall i :: 0 <= i < |ls| ==> AlgorithmOf(ls[i]) == AlgorithmOf(lists[i]);
    forall alg | alg in added' ensures Listed(ls, alg) {
      ListedHere(lists, k);
      ListedReplaced(lists, k, l, alg);
    }
  }

  lemma ListedHere(lists: seq<SigList>, k: nat)
    requires k < |lists|
    ensures Listed(lists, lists[k].algorithm)
  {
    assert lists[k] in lists;
  }

  lemma AppendInv(lists: seq<SigList>, added: multiset<nat>, l: SigList)
    requires Inv(lists, added) && Good(l, 1) && forall x :: x in lists ==> x.algorithm != l.algorithm
    ensures Inv(lists + [l], added + multiset{l.algorithm})
  {
    hide Good;
    var ls, added' := lists + [l], added + multiset{l.algorithm};
    assert l.algorithm !in added;
    forall x | x in ls ensures Good(x, added'[x.algorithm]) {
      if x in lists {
        assert added'[x.algorithm] == added[x.algorithm];
      }
    }
    forall i, j | 0 <= i < j < |ls| ensures AlgorithmOf(ls[i]) != AlgorithmOf(ls[j]) {
      assert ls[i] in lists;
    }
    forall alg | alg in added' ensures Listed(ls, alg) {
      ListedAppended(lists, l, alg);
    }
  }

  lemma ListedAppended(lists: seq<SigList>, l: SigList, alg: nat)
    requires Listed(lists, alg) || alg == l.algorithm
    ensures Listed(lists + [l], alg)
  {
    if Listed(lists, alg) {
      var x :| x in lists && x.algorithm == alg;
      assert x in lists + [l];
    } else {
      assert l in lists + [l];
    }
  }

  lemma PermuteInv(lists: seq<SigList>, lists': seq<SigList>, added: multiset<nat>)
    requires Inv(lists, added) && multiset(lists') == multiset(lists)
    ensures Inv(lists', added)
    ensures forall alg, e :: Present(lists', alg, e) <==> Present(lists, alg, e)
  {
    hide Good;
    SameMembers(lists', lists);
    DistinctPermuted(lists', lists, AlgorithmOf);
  }

  /** In a database each type has one list. */
  lemma PresentIn(lists: seq<SigList>, k: nat, e: Entry)
    requires DistinctBy(lists, AlgorithmOf) && k < |lists|
    ensures Present(lists, lists[k].algorithm, e) <==> e in lists[k].entries
  {
    assert lists[k] in lists;
    if Present(lists, lists[k].algorithm, e) {
      var l :| l in lists && l.algorithm == lists[k].algorithm && e in l.entries;
      var i :| 0 <= i < |lists| && lists[i] == l;
      assert AlgorithmOf(lists[i]) == AlgorithmOf(lists[k]);
    }
  }

  lemma ReplacePresent(lists: seq<SigList>, k: nat, l: SigList, alg: nat, e: Entry)
    requires DistinctBy(lists, AlgorithmOf) && k < |lists| && l.algorithm == lists[k].algorithm
    ensures Present(lists[k := l], alg, e) <==>
      if alg == l.algorithm then e in l.entries else Present(lists, alg, e)
  {
    var ls := lists[k := l];
    assert ls[k] == l && lists[k] in lists;
    if alg == l.algorithm {
      assert forall i :: 0 <= i < |ls| ==> AlgorithmOf(ls[i]) == AlgorithmOf(lists[i]);
      PresentIn(ls, k, e);
    } else {
      if Present(ls, alg, e) {
        var x :| x in ls && x.algorithm == alg && e in x.entries;
        assert x in lists;
      }
      if Present(lists, alg, e) {
        var x :| x in lists && x.algorithm == alg && e in x.entries;
        var i :| 0 <= i < |lists| && lists[i] == x;
        assert ls[i] == x;
      }
    }
  }

  lemma AppendPresent(lists: seq<SigList>, l: SigList, alg: nat, e: Entry)
    ensures Present(lists + [l], alg, e) <==> Present(lists, alg, e) || (alg == l.algorithm && e in l.entries)
  {
    if Present(lists + [l], alg, e) {
      var x :| x in lists + [l] && x.algorithm == alg && e in x.entries;
      assert x in lists || x == l;
    }
    if Present(lists, alg, e) {
      var x :| x in lists && x.algorithm == alg && e in x.entries;
      assert x in lists + [l];
    }
    assert l in lists + [l];
  }

  // ---------- one addition ----------

  ghost predicate HasData(lists: seq<SigList>, alg: nat, data: seq<byte>) {
    exists owner :: Present(lists, alg, Entry(owner, data))
  }

  /** The list an addition works on: the one of the type, or a new one. */
  ghost predicate BaseOf(flags: Flags, lists: seq<SigList>, alg: nat, k: nat, base: SigList)
    requires alg < TYPE_MAX
  {
    if k < |lists| then base == lists[k] && base.algorithm == alg
    else base == NewList(flags, alg, EntrySize(alg)) && forall l :: l in lists ==> l.algorithm != alg
  }

  function Replaced(lists: seq<SigList>, k: nat, l: SigList): (r: seq<SigList>) {
    if k < |lists| then lists[k := l] else lists + [l]
  }

  /** An addition that is not a duplicate: list `k` grows from `base` to `l`, and the lists are sorted. */
  ghost predicate Grows(
    flags: Flags, lists: seq<SigList>, owner: Guid, alg: nat, data: seq<byte>, k: nat, base: SigList,
    es: seq<Entry>, lists': seq<SigList>)
    requires alg < TYPE_MAX
  {
    && BaseOf(flags, lists, alg, k, base)
    && (forall e :: e in base.entries ==> e.data != data)
    && EntriesSorted(Appended(base, owner, data), |data|, es)
    && ListsSorted(base.flags, Replaced(lists, k, Appended(base, owner, data).(entries := es)), lists')
  }

  lemma BaseUniform(flags: Flags, lists: seq<SigList>, added: multiset<nat>, alg: nat, k: nat, base: SigList)
    requires Inv(lists, added) && Sized(alg) && BaseOf(flags, lists, alg, k, base)
    ensures Uniform(base) && base.nsigs == added[alg] && base.algorithm == alg
  {
    if k < |lists| {
      assert Good(lists[k], added[alg]);
    } else {
      assert alg !in added;
    }
    hide Uniform, EntrySize, TableSize;
  }

  lemma BaseHasData(flags: Flags, lists: seq<SigList>, alg: nat, k: nat, base: SigList, data: seq<byte>)
    requires DistinctBy(lists, AlgorithmOf) && alg < TYPE_MAX && BaseOf(flags, lists, alg, k, base)
    ensures HasData(lists, alg, data) <==> exists e :: e in base.entries && e.data == data
  {
    if k < |lists| {
      if e :| e in base.entries && e.data == data {
        PresentIn(lists, k, e);
        assert Present(lists, alg, Entry(e.owner, data));
      }
      if HasData(lists, alg, data) {
        var owner :| Present(lists, alg, Entry(owner, data));
        PresentIn(lists, k, Entry(owner, data));
      }
    }
  }

  /** An addition of right-sized data either finds it present and changes nothing, or grows one list. */
  lemma AddCases(
      flags: Flags, lists: seq<SigList>, added: multiset<nat>, owner: Guid, alg: nat, data: seq<byte>, lists': seq<SigList>)
      returns (k: nat, base: SigList, es: seq<Entry>)
    requires Inv(lists, added) && RightSize(alg, data) && AddPost(flags, lists, owner, alg, data, false, lists')
    ensures HasData(lists, alg, data) ==> lists' == lists
    ensures !HasData(lists, alg, data) ==> Grows(flags, lists, owner, alg, data, k, base, es, lists')
  {
    hide *;
    SizeOf(alg, data);
    SelectFinds(flags, lists, added, alg, data);
    var sel := Select(flags, lists, alg, |data| + 16, false);
    k, base, es := sel.1, sel.0[sel.1], [];
    BaseOfSelect(flags, lists, alg, sel.0, k, base);
    InvDistinct(lists, added);
    BaseUniform(flags, lists, added, alg, k, base);
    BaseHasData(flags, lists, alg, k, base, data);
    DuplicateIs(base, data);
    AddPostCases(flags, lists, owner, alg, data, lists');
    if !Duplicate(base, data) {
      es :| EntriesSorted(Appended(base, owner, data), |data|, es)
         && ListsSorted(base.flags, Extended(sel.0, k, owner, data, es), lists');
      ExtendedIs(sel.0, k, owner, data, es);
      ReplacedIs(lists, sel.0, k, Appended(base, owner, data).(entries := es));
      GrowsIs(flags, lists, owner, alg, data, k, base, es, lists');
    } else {
      DuplicateOld(flags, lists, alg, sel.0, k, base, data);
    }
  }

  lemma SizeOf(alg: nat, data: seq<byte>)
    requires RightSize(alg, data)
    ensures Sized(alg) && alg < TYPE_MAX && |data| == TableSize(alg)
  {
  }

  lemma InvDistinct(lists: seq<SigList>, added: multiset<nat>)
    requires Inv(lists, added)
    ensures DistinctBy(lists, AlgorithmOf)
  {
    hide Good, DistinctBy;
  }

  lemma BaseOfSelect(flags: Flags, lists: seq<SigList>, alg: nat, ls: seq<SigList>, k: nat, base: SigList)
    requires alg < TYPE_MAX && k < |ls| && base == ls[k]
    requires if k < |lists| then ls == lists && lists[k].algorithm == alg
             else k == |lists| && ls == lists + [NewList(flags, alg, EntrySize(alg))]
                  && forall l :: l in lists ==> l.algorithm != alg
    ensures BaseOf(flags, lists, alg, k, base)
  {
    hide NewList, EntrySize;
  }

  lemma AddPostCases(
      flags: Flags, lists: seq<SigList>, owner: Guid, alg: nat, data: seq<byte>, lists': seq<SigList>)
    requires alg < TYPE_MAX && AddPost(flags, lists, owner, alg, data, false, lists')
    ensures var (ls, k) := Select(flags, lists, alg, |data| + 16, false);
      if Duplicate(ls[k], data) then lists' == ls
      else exists es ::
        && EntriesSorted(Appended(ls[k], owner, data), |data|, es)
        && ListsSorted(ls[k].flags, Extended(ls, k, owner, data, es), lists')
  {
    hide Select, Duplicate, EntriesSorted, ListsSorted, Extended, Appended;
  }

  lemma ReplacedIs(lists: seq<SigList>, ls: seq<SigList>, k: nat, l: SigList)
    requires k < |ls| && (if k < |lists| then ls == lists else k == |lists| && ls[..k] == lists && |ls| == k + 1)
    ensures ls[k := l] == Replaced(lists, k, l)
  {
  }

  lemma GrowsIs(
      flags: Flags, lists: seq<SigList>, owner: Guid, alg: nat, data: seq<byte>, k: nat, base: SigList,
      es: seq<Entry>, lists': seq<SigList>)
    requires alg < TYPE_MAX && BaseOf(flags, lists, alg, k, base)
    requires forall e :: e in base.entries ==> e.data != data
    requires EntriesSorted(Appended(base, owner, data), |data|, es)
    requires ListsSorted(base.flags, Replaced(lists, k, Appended(base, owner, data).(entries := es)), lists')
    ensures Grows(flags, lists, owner, alg, data, k, base, es, lists')
  {
    hide BaseOf, EntriesSorted, ListsSorted, Replaced, Appended;
  }

  lemma DuplicateOld(
      flags: Flags, lists: seq<SigList>, alg: nat, ls: seq<SigList>, k: nat, base: SigList, data: seq<byte>)
    requires alg < TYPE_MAX && k < |ls| && base == ls[k] && Duplicate(base, data)
    requires if k < |lists| then ls == lists else ls == lists + [NewList(flags, alg, EntrySize(alg))] && k == |lists|
    ensures ls == lists
  {
  }

  lemma ListsSortedMembers(flags: Flags, lists: seq<SigList>, lists': seq<SigList>)
    requires ListsSorted(flags, lists, lists')
    ensures multiset(lists') == multiset(lists)
  {
  }

  lemma GrowsRefines(
      flags: Flags, lists: seq<SigList>, added: multiset<nat>, owner: Guid, alg: nat, data: seq<byte>, k: nat,
      base: SigList, es: seq<Entry>, lists': seq<SigList>)
    requires Inv(lists, added) && RightSize(alg, data) && SizeAfter(alg, added[alg] + 1) != 0
    requires Grows(flags, lists, owner, alg, data, k, base, es, lists')
    ensures Good(Appended(base, owner, data).(entries := es), added[alg] + 1)
    ensures Appended(base, owner, data).algorithm == alg
    ensures Inv(Replaced(lists, k, Appended(base, owner, data).(entries := es)), added + multiset{alg})
    ensures Inv(lists', added + multiset{alg})
    ensures forall a, e :: Present(lists', a, e) <==> Present(lists, a, e) || (a == alg && e == Entry(owner, data))
  {
    BaseUniform(flags, lists, added, alg, k, base);
    Grow(base, owner, data, es);
    var l := Appended(base, owner, data).(entries := es);
    var mid := Replaced(lists, k, l);
    ListsSortedMembers(base.flags, mid, lists');
    InvDistinct(lists, added);
    hide Good, Inv, Present, EntriesSorted, ListsSorted, Appended, Uniform, NewList, DistinctBy, Sized, TableSize;
    if k < |lists| {
      ReplaceInv(lists, added, k, l);
    } else {
      AppendInv(lists, added, l);
    }
    PermuteInv(mid, lists', added + multiset{alg});
    forall a, e ensures Present(mid, a, e) <==> Present(lists, a, e) || (a == alg && e == Entry(owner, data)) {
      if k < |lists| {
        ReplacePresent(lists, k, l, a, e);
        PresentIn(lists, k, e);
      } else {
        AppendPresent(lists, l, a, e);
      }
    }
  }

  lemma AddRefines(
      flags: Flags, lists: seq<SigList>, a: Ideal, owner: Guid, alg: nat, data: seq<byte>, lists': seq<SigList>)
    requires Inv(lists, a.added) && Represents(lists, a.store) && RightSize(alg, data)
    requires Unwrapped(MapAdd(a, owner, alg, data).added)
    requires AddPost(flags, lists, owner, alg, data, false, lists')
    ensures var a' := MapAdd(a, owner, alg, data); Inv(lists', a'.added) && Represents(lists', a'.store)
  {
    hide *;
    var k, base, es := AddCases(flags, lists, a.added, owner, alg, data, lists');
    HasDataMaps(lists, a.store, alg, data);
    MapAddIs(a, owner, alg, data);
    if !HasData(lists, alg, data) {
      SizeOf(alg, data);
      NextSize(a.added, alg);
      GrowsRefines(flags, lists, a.added, owner, alg, data, k, base, es, lists');
      RepresentsAdded(lists, a.store, owner, alg, data, lists');
    }
  }

  lemma MapAddIs(a: Ideal, owner: Guid, alg: nat, data: seq<byte>)
    ensures (alg, data) in a.store ==> MapAdd(a, owner, alg, data) == a
    ensures (alg, data) !in a.store ==>
      MapAdd(a, owner, alg, data) == Ideal(a.store[(alg, data) := owner], a.added + multiset{alg})
  {
  }

  lemma NextSize(added: multiset<nat>, alg: nat)
    requires Sized(alg) && Unwrapped(added + multiset{alg})
    ensures SizeAfter(alg, added[alg] + 1) != 0
  {
    SizeNotZero(alg, added[alg] + 1);
  }

  lemma HasDataMaps(lists: seq<SigList>, m: Store, alg: nat, data: seq<byte>)
    requires Represents(lists, m)
    ensures HasData(lists, alg, data) <==> (alg, data) in m
  {
    hide Present;
    if (alg, data) in m {
      assert Maps(m, alg, Entry(m[(alg, data)], data));
    }
  }

  lemma RepresentsAdded(
      lists: seq<SigList>, m: Store, owner: Guid, alg: nat, data: seq<byte>, lists': seq<SigList>)
    requires Represents(lists, m) && (alg, data) !in m
    requires forall a, e :: Present(lists', a, e) <==> Present(lists, a, e) || (a == alg && e == Entry(owner, data))
    ensures Represents(lists', m[(alg, data) := owner])
  {
    hide Present;
    var m' := m[(alg, data) := owner];
    forall a, e ensures Present(lists', a, e) <==> Maps(m', a, e) {
      assert Present(lists, a, e) <==> Maps(m, a, e);
    }
  }

  // ---------- one deletion ----------

  lemma WithoutMembers(es: seq<Entry>, k: nat, e: Entry)
    requires DistinctBy(es, DataOf) && k <= |es|
    ensures e in Without(es, k) <==> e in es && (k < |es| ==> e != es[k])
    ensures DistinctBy(Without(es, k), DataOf)
  {
    if k < |es| {
      var r := Without(es, k);
      assert forall i :: 0 <= i < |r| ==> r[i] == es[if i < k then i else i + 1];
      if e in es && e != es[k] {
        var i :| 0 <= i < |es| && es[i] == e;
        assert r[if i < k then i else i - 1] == e;
      }
      if e in r {
        var i :| 0 <= i < |r| && r[i] == e;
        assert DataOf(e) != DataOf(es[k]);
      }
    }
  }

  lemma MatchIs(l: SigList, j: nat, owner: Guid, data: seq<byte>)
    requires Uniform(l) && |data| == TableSize(l.algorithm) && j < |l.entries|
    ensures SameData(data, l.entries[j], |data|) && l.entries[j].owner == owner <==> l.entries[j] == Entry(owner, data)
  {
    hide TableSize, EntrySize, Sized, DistinctBy;
    assert l.entries[j] in l.entries;
  }

  /** The entry removed is the one with this owner and data. */
  lemma Removes(l: SigList, owner: Guid, data: seq<byte>, e: Entry)
    requires Uniform(l) && |data| == TableSize(l.algorithm)
    ensures var k := FirstMatch(l.entries, 0, owner, data, |data|);
      e in Without(l.entries, k) <==> e in l.entries && e != Entry(owner, data)
  {
    var es := l.entries;
    var k := FirstMatch(es, 0, owner, data, |data|);
    forall j | 0 <= j < |es|
      ensures SameData(data, es[j], |data|) && es[j].owner == owner <==> es[j] == Entry(owner, data) {
      MatchIs(l, j, owner, data);
    }
    WithoutMembers(es, k, e);
    hide FirstMatch, TableSize, EntrySize, SameData, Without, DistinctBy, Sized;
    if e in es && e == Entry(owner, data) {
      var j :| 0 <= j < |es| && es[j] == e;
    }
  }

  lemma DelGood(l: SigList, n: nat, owner: Guid, data: seq<byte>)
    requires Good(l, n) && |data| == TableSize(l.algorithm)
    ensures Good(l.(entries := Without(l.entries, FirstMatch(l.entries, 0, owner, data, |data|))), n)
  {
    var es := l.entries;
    var k := FirstMatch(es, 0, owner, data, |data|);
    forall e | e in Without(es, k) ensures e in es {
      WithoutMembers(es, k, e);
    }
    WithoutMembers(es, k, Entry(owner, data));
    hide TableSize, EntrySize, FirstMatch, Without;
  }

  lemma ReplaceSame(lists: seq<SigList>, added: multiset<nat>, k: nat, l: SigList)
    requires Inv(lists, added) && k < |lists| && l.algorithm == lists[k].algorithm && Good(l, added[l.algorithm])
    ensures Inv(lists[k := l], added)
  {
    hide Good, Listed;
    var ls := lists[k := l];
    assert forall i :: 0 <= i < |ls| ==> AlgorithmOf(ls[i]) == AlgorithmOf(lists[i]);
    forall alg | alg in added ensures Listed(ls, alg) {
      ListedReplaced(lists, k, l, alg);
    }
  }

  lemma DelPresent(lists: seq<SigList>, added: multiset<nat>, owner: Guid, alg: nat, data: seq<byte>)
    requires Inv(lists, added) && RightSize(alg, data)
    ensures Inv(DelPost(lists, owner, alg, data), added)
    ensures forall a, e :: Present(DelPost(lists, owner, alg, data), a, e) <==>
      Present(lists, a, e) && !(a == alg && e == Entry(owner, data))
  {
    FindFinds(lists, added, alg, |data|);
    InvDistinct(lists, added);
    assert ComparedSize(alg, |data|) == |data|;
    hide Find, Present, Good, FirstMatch, Without, TableSize, Sized, Uniform, DistinctBy, ComparedSize;
    match Find(lists, alg, |data|)
    case None =>
      forall a, e ensures Present(lists, a, e) ==> a != alg {
        if Present(lists, a, e) {
          PresentNeedsList(lists, a, e);
        }
      }
    case Some(k) =>
      var l := lists[k];
      assert Good(l, added[l.algorithm]);
      GoodUniform(l, added[l.algorithm]);
      DelGood(l, added[l.algorithm], owner, data);
      var l' := l.(entries := Without(l.entries, FirstMatch(l.entries, 0, owner, data, |data|)));
      ReplaceSame(lists, added, k, l');
      forall a, e ensures Present(lists[k := l'], a, e) <==>
        Present(lists, a, e) && !(a == alg && e == Entry(owner, data)) {
        ReplacePresent(lists, k, l', a, e);
        PresentIn(lists, k, e);
        Removes(l, owner, data, e);
      }
  }

  lemma GoodUniform(l: SigList, n: nat)
    requires Good(l, n)
    ensures Uniform(l)
  {
    hide Uniform;
  }

  lemma PresentNeedsList(lists: seq<SigList>, alg: nat, e: Entry)
    requires Present(lists, alg, e)
    ensures exists l :: l in lists && l.algorithm == alg
  {
  }

  lemma RepresentsRemoved(
      lists: seq<SigList>, m: Store, owner: Guid, alg: nat, data: seq<byte>, lists': seq<SigList>, m': Store)
    requires Represents(lists, m)
    requires forall a, e :: Present(lists', a, e) <==> Present(lists, a, e) && !(a == alg && e == Entry(owner, data))
    requires m' == if Maps(m, alg, Entry(owner, data)) then m - {(alg, data)} else m
    ensures Represents(lists', m')
  {
    hide Present;
    forall a, e ensures Present(lists', a, e) <==> Maps(m', a, e) {
      assert Present(lists, a, e) <==> Maps(m, a, e);
    }
  }

  lemma MapDelIs(a: Ideal, owner: Guid, alg: nat, data: seq<byte>)
    ensures MapDel(a, owner, alg, data).added == a.added
    ensures MapDel(a, owner, alg, data).store
         == if Maps(a.store, alg, Entry(owner, data)) then a.store - {(alg, data)} else a.store
  {
    hide Maps;
  }

  lemma DelRefines(lists: seq<SigList>, a: Ideal, owner: Guid, alg: nat, data: seq<byte>)
    requires Inv(lists, a.added) && Represents(lists, a.store) && RightSize(alg, data)
    ensures alg < TYPE_MAX
    ensures var a' := MapDel(a, owner, alg, data);
      Inv(DelPost(lists, owner, alg, data), a'.added) && Represents(DelPost(lists, owner, alg, data), a'.store)
  {
    hide *;
    SizeOf(alg, data);
    DelPresent(lists, a.added, owner, alg, data);
    MapDelIs(a, owner, alg, data);
    RepresentsRemoved(lists, a.store, owner, alg, data, DelPost(lists, owner, alg, data), MapDel(a, owner, alg, data).store);
  }

  // ---------- parsing ----------

  predicate RightFetched(f: Fetched) {
    var t := TypeOf(f.kind);
    t != -1 && RightSize(t, f.data) && !f.corrected
  }

  function MapFetched(a: Ideal, f: Fetched): (a': Ideal) {
    if TypeOf(f.kind) == -1 then a else MapAdd(a, f.owner, TypeOf(f.kind), f.data)
  }

  /** The additions of a parse, in file order. */
  function MapAddAll(a: Ideal, fs: seq<Fetched>): (a': Ideal)
    decreases |fs|
  {
    if fs == [] then a else MapFetched(MapAddAll(a, fs[..|fs| - 1]), fs[|fs| - 1])
  }

  lemma FetchedGrows(a: Ideal, f: Fetched)
    ensures a.added <= MapFetched(a, f).added
  {
    hide TypeOf;
  }

  lemma {:induction false} AddAllGrows(a: Ideal, fs: seq<Fetched>)
    ensures a.added <= MapAddAll(a, fs).added
    decreases |fs|
  {
    hide MapFetched;
    if fs != [] {
      AddAllGrows(a, fs[..|fs| - 1]);
      FetchedGrows(MapAddAll(a, fs[..|fs| - 1]), fs[|fs| - 1]);
    }
  }

  lemma UnwrappedBelow(added: multiset<nat>, more: multiset<nat>)
    requires added <= more && Unwrapped(more)
    ensures Unwrapped(added)
  {
    assert added[SHA1] <= more[SHA1] && added[SHA224] <= more[SHA224];
  }

  lemma AddAllLast(flags: Flags, lists: seq<SigList>, fs: seq<Fetched>, lists': seq<SigList>)
      returns (mid: seq<SigList>)
    requires fs != [] && AddAll(flags, lists, fs, lists')
    ensures AddAll(flags, lists, fs[..|fs| - 1], mid) && AddFetched(flags, mid, fs[|fs| - 1], lists')
  {
    hide AddFetched;
    var front, f := fs[..|fs| - 1], fs[|fs| - 1];
    mid :| AddAll(flags, lists, front, mid) && AddFetched(flags, mid, f, lists');
  }

  /** The database represents the ideal state. */
  ghost predicate Refines(lists: seq<SigList>, a: Ideal) {
    Inv(lists, a.added) && Represents(lists, a.store)
  }

  lemma FetchedRefines(flags: Flags, lists: seq<SigList>, a: Ideal, f: Fetched, lists': seq<SigList>)
    requires flags.sort && RightFetched(f) && Unwrapped(MapFetched(a, f).added)
    requires Refines(lists, a) && AddFetched(flags, lists, f, lists')
    ensures Refines(lists', MapFetched(a, f))
  {
    FetchedAdds(flags, lists, f, lists');
    hide AddFetched, Inv, Represents, MapAdd, RightFetched, TypeOf, RightSize, AddPost, Unwrapped;
    AddRefines(flags, lists, a, f.owner, TypeOf(f.kind), f.data, lists');
  }

  lemma {:induction false} AddAllRefines(
      flags: Flags, lists: seq<SigList>, a: Ideal, fs: seq<Fetched>, lists': seq<SigList>)
    requires flags.sort && (forall f :: f in fs ==> RightFetched(f)) && Unwrapped(MapAddAll(a, fs).added)
    requires Refines(lists, a) && AddAll(flags, lists, fs, lists')
    ensures Refines(lists', MapAddAll(a, fs))
    decreases |fs|
  {
    if fs == [] {
      hide Refines;
    } else {
      hide AddAll, AddFetched, Refines, MapFetched, RightFetched, Unwrapped;
      var front, f := fs[..|fs| - 1], fs[|fs| - 1];
      var mid := AddAllLast(flags, lists, fs, lists');
      FetchedGrows(MapAddAll(a, front), f);
      UnwrappedBelow(MapAddAll(a, front).added, MapAddAll(a, fs).added);
      AddAllRefines(flags, lists, a, front, mid);
      assert f in fs;
      FetchedRefines(flags, mid, MapAddAll(a, front), f, lists');
    }
  }

  lemma FetchedAdds(flags: Flags, lists: seq<SigList>, f: Fetched, lists': seq<SigList>)
    requires flags.sort && RightFetched(f) && AddFetched(flags, lists, f, lists')
    ensures 0 <= TypeOf(f.kind) < TYPE_MAX && RightSize(TypeOf(f.kind), f.data)
    ensures AddPost(flags, lists, f.owner, TypeOf(f.kind), f.data, false, lists')
  {
    hide AddPost, RightSize, TypeFrom;
  }

  /** A list of a file that holds hashes or RSA-2048 values of the right size. */
  predicate RightEsl(l: Esl) {
    var t := TypeOf(l.kind);
    WellFormed(l) && t != -1 && Sized(t) && |l.entries[0].data| == TableSize(t)
  }

  /** Each list fits its size field; the whole fits a size_t. */
  predicate RightFile(file: seq<Esl>) {
    file != [] && Sizeable(file) && (forall l :: l in file ==> RightEsl(l)) && |Layout(file)| < TWO64
  }

  lemma {:induction false} ItemsAre(file: seq<Esl>, x: Outcome)
    requires x in Items(file)
    ensures exists l, j :: l in file && 0 <= j < |l.entries| && x == ItemOf(l, j)
  {
    if file != [] {
      if x in ItemsOf(file[0]) {
        var j :| 0 <= j < |file[0].entries| && ItemsOf(file[0])[j] == x;
        assert x == ItemOf(file[0], j) && file[0] in file;
      } else {
        ItemsAre(file[1..], x);
        var l, j :| l in file[1..] && 0 <= j < |l.entries| && x == ItemOf(l, j);
        assert l in file;
      }
    }
  }

  lemma ItemsAreItems(file: seq<Esl>)
    ensures forall x :: x in Items(file) ==> x.Item?
  {
    hide Items;
    forall x | x in Items(file) ensures x.Item? {
      ItemsAre(file, x);
    }
  }

  function Contents(file: seq<Esl>): (fs: seq<Fetched>) {
    ItemsAreItems(file);
    Plain(Items(file))
  }

  lemma LayoutLength(file: seq<Esl>)
    requires file != [] && forall l :: l in file ==> WellFormed(l)
    ensures |Layout(file)| >= 44
  {
    assert file[0] in file;
    SignaturesLength(file[0].entries, Size(file[0]));
    SizeFits(file[0]);
    assert |EslBytes(file[0])| >= 44;
    hide EslBytes;
  }

  /** How the parse of a well-formed file of `n` bytes ends: from 4 GiB on it reads past the buffer. */
  function EndingAt(n: nat): (p: Parsing) { if n < TWO32 then Parsed else Overran }

  /** The parse loop fetches exactly the entries of a well-formed file, and then ends as its size says. */
  lemma FetchesFile(file: seq<Esl>)
    requires file != [] && Sizeable(file) && |Layout(file)| < TWO64
    ensures |Layout(file)| >= 44 && Moving(Start(Layout(file)))
    ensures Fetches(Start(Layout(file))) == (Contents(file), EndingAt(|Layout(file)|))
    ensures LeftIn(Layout(file)) == Layout(file)
  {
    SizeableFormed(file);
    LayoutLength(file);
    WalksOver(file);
    ItemsAreItems(file);
    StartMoving(Layout(file));
    hide Layout, Start, Moving, Items, Fetches, Yields, Sizeable;
    YieldsFetches(Start(Layout(file)), Items(file), Ending(|Layout(file)|));
    YieldsUnchanged(Start(Layout(file)), Items(file), Ending(|Layout(file)|));
  }

  lemma RightContents(file: seq<Esl>)
    requires forall l :: l in file ==> RightEsl(l)
    ensures forall f :: f in Contents(file) ==> RightFetched(f)
  {
    hide Items, TypeOf, TableSize;
    ItemsAreItems(file);
    forall f | f in Contents(file) ensures RightFetched(f) {
      var i :| 0 <= i < |Items(file)| && Contents(file)[i] == f;
      ItemsAre(file, Items(file)[i]);
      var l, j :| l in file && 0 <= j < |l.entries| && Items(file)[i] == ItemOf(l, j);
      assert RightEsl(l) && l.entries[j] in l.entries;
    }
  }

  /** No addition on the way reads past a stored entry. */
  ghost predicate Steady(flags: Flags, lists: seq<SigList>, fs: seq<Fetched>) {
    forall n, mid :: !StopsAt(flags, lists, fs, n, mid)
  }

  /** Parsing a well-formed file adds its entries in order; it succeeds if and only if the file is below 4 GiB, and
      otherwise has added them all when it reads past the buffer. */
  lemma ParseCases(
      flags: Flags, lists: seq<SigList>, file: seq<Esl>, p: Parsing, lists': seq<SigList>) returns (mid: seq<SigList>)
    requires file != [] && Sizeable(file) && |Layout(file)| < TWO64 && Steady(flags, lists, Contents(file))
    requires ParsePost(flags, lists, Layout(file), p, lists')
    ensures AddAll(flags, lists, Contents(file), mid) && p == EndingAt(|Layout(file)|)
    ensures p == Parsed ==> ListsSorted(flags, mid, lists')
    ensures p == Overran ==> lists' == mid
  {
    FetchesFile(file);
    hide Fetches, Layout, Contents, AddAll, ListsSorted, Moving, Start, StopsAt;
    assert Completes(flags, lists, Contents(file), p, lists');
    mid :| AddAll(flags, lists, Contents(file), mid)
      && if p == Parsed then ListsSorted(flags, mid, lists') else lists' == mid;
  }

  lemma ParseRefines(
      flags: Flags, lists: seq<SigList>, a: Ideal, file: seq<Esl>, p: Parsing, lists': seq<SigList>)
    requires flags.sort && RightFile(file) && Refines(lists, a) && Unwrapped(MapAddAll(a, Contents(file)).added)
    requires ParsePost(flags, lists, Layout(file), p, lists')
    ensures p == EndingAt(|Layout(file)|)
    ensures Refines(lists', MapAddAll(a, Contents(file)))
  {
    hide *;
    RightFileIs(file);
    RightContents(file);
    RightSteady(flags, lists, a, Contents(file));
    var mid := ParseCases(flags, lists, file, p, lists');
    AddAllRefines(flags, lists, a, Contents(file), mid);
    EndingOnly(|Layout(file)|);
    if p == Parsed {
      ListsSortedMembers(flags, mid, lists');
      RefinesPermuted(mid, lists', MapAddAll(a, Contents(file)));
    }
  }

  lemma EndingOnly(n: nat)
    ensures EndingAt(n) == Parsed || EndingAt(n) == Overran
  {
  }

  lemma RefinesPermuted(lists: seq<SigList>, lists': seq<SigList>, a: Ideal)
    requires Refines(lists, a) && multiset(lists') == multiset(lists)
    ensures Refines(lists', a)
  {
    hide Inv, Represents;
    PermuteInv(lists, lists', a.added);
    RepresentsSame(lists, lists', a.store);
  }

  lemma RightFileIs(file: seq<Esl>)
    requires RightFile(file)
    ensures file != [] && Sizeable(file) && (forall l :: l in file ==> RightEsl(l) && WellFormed(l))
    ensures |Layout(file)| < TWO64
  {
    hide Layout, TypeOf, TableSize, Extent, WellFormed;
  }

  lemma RepresentsSame(lists: seq<SigList>, lists': seq<SigList>, m: Store)
    requires Represents(lists, m) && forall alg, e :: Present(lists', alg, e) <==> Present(lists, alg, e)
    ensures Represents(lists', m)
  {
    hide Present, Maps;
  }

  lemma {:induction false} AddAllPrefix(a: Ideal, fs: seq<Fetched>, n: nat)
    requires n <= |fs|
    ensures MapAddAll(a, fs[..n]).added <= MapAddAll(a, fs).added
    decreases |fs|
  {
    if n < |fs| {
      var k := |fs| - 1;
      AddAllPrefix(a, fs[..k], n);
      assert fs[..k][..n] == fs[..n];
      FetchedGrows(MapAddAll(a, fs[..k]), fs[k]);
      hide MapFetched;
    } else {
      assert fs[..n] == fs;
    }
  }

  lemma RightFetchedIs(flags: Flags, f: Fetched)
    requires flags.sort && RightFetched(f)
    ensures 0 <= TypeOf(f.kind) < TYPE_MAX && RightSize(TypeOf(f.kind), f.data) && !Forced(flags, f)
  {
    hide TypeFrom;
  }

  lemma NoStumble(flags: Flags, lists: seq<SigList>, added: multiset<nat>, f: Fetched)
    requires flags.sort && RightFetched(f) && Inv(lists, added)
    ensures !Stumbles(flags, lists, f)
  {
    hide *;
    RightFetchedIs(flags, f);
    AddInside(flags, lists, added, TypeOf(f.kind), f.data);
    ForcedIs(flags, f);
    StumblesIs(flags, lists, f, TypeOf(f.kind), false);
  }

  lemma ForcedIs(flags: Flags, f: Fetched)
    ensures Forced(flags, f) == (f.corrected || (f.first && !flags.sort))
  {
  }

  lemma AddInside(flags: Flags, lists: seq<SigList>, added: multiset<nat>, alg: nat, data: seq<byte>)
    requires Inv(lists, added) && RightSize(alg, data)
    ensures alg < TYPE_MAX && !AddOver(flags, lists, alg, data, false)
  {
    hide *;
    ComparesInside(flags, lists, added, alg, data);
    var (ls, k) := Select(flags, lists, alg, |data| + 16, false);
    NoAddOverread(ls[k].entries, 0, data);
    AddOverIs(flags, lists, alg, data, false);
  }

  lemma DelInside(flags: Flags, lists: seq<SigList>, added: multiset<nat>, owner: Guid, alg: nat, data: seq<byte>)
    requires Inv(lists, added) && RightSize(alg, data)
    ensures alg < TYPE_MAX && !DelOver(lists, owner, alg, data)
  {
    ComparesInside(flags, lists, added, alg, data);
    hide Inv, RightSize, Find, DelOverreads, ComparedSize, Select;
    match Find(lists, alg, |data|)
    case None =>
    case Some(k) => NoDelOverread(lists[k].entries, 0, owner, data, ComparedSize(alg, |data|));
  }

  /** Additions of right-sized entries to a reachable database never stumble. */
  lemma RightSteady(flags: Flags, lists: seq<SigList>, a: Ideal, fs: seq<Fetched>)
    requires flags.sort && (forall f :: f in fs ==> RightFetched(f)) && Unwrapped(MapAddAll(a, fs).added)
    requires Refines(lists, a)
    ensures Steady(flags, lists, fs)
  {
    hide AddAll, Stumbles, Refines, Unwrapped, RightFetched, MapAddAll, Inv;
    forall n: nat, mid ensures !StopsAt(flags, lists, fs, n, mid) {
      if n < |fs| && AddAll(flags, lists, fs[..n], mid) {
        AddAllPrefix(a, fs, n);
        UnwrappedBelow(MapAddAll(a, fs[..n]).added, MapAddAll(a, fs).added);
        assert forall f :: f in fs[..n] ==> f in fs;
        AddAllRefines(flags, lists, a, fs[..n], mid);
        RefinesInv(mid, MapAddAll(a, fs[..n]));
        assert fs[n] in fs;
        NoStumble(flags, mid, MapAddAll(a, fs[..n]).added, fs[n]);
      }
    }
  }

  lemma RefinesInv(lists: seq<SigList>, a: Ideal)
    requires Refines(lists, a)
    ensures Inv(lists, a.added) && Represents(lists, a.store)
  {
    hide Inv, Represents;
  }

  /** In a reachable database no comparison of an addition or a deletion reads past the bytes it compares. */
  lemma ComparesInside(flags: Flags, lists: seq<SigList>, added: multiset<nat>, alg: nat, data: seq<byte>)
    requires Inv(lists, added) && RightSize(alg, data)
    ensures alg < TYPE_MAX && ComparedSize(alg, |data|) == |data|
    ensures var (ls, k) := Select(flags, lists, alg, |data| + 16, false);
      forall e :: e in ls[k].entries ==> |data| == |e.data|
    ensures match Find(lists, alg, |data|)
      case Some(k) => forall e :: e in lists[k].entries ==> |data| == |e.data|
      case None => true
  {
    hide *;
    SizeOf(alg, data);
    ComparedIs(alg, |data|);
    SelectFinds(flags, lists, added, alg, data);
    FindFinds(lists, added, alg, |data|);
    NoEntries(flags, alg, EntrySize(alg));
    forall k | 0 <= k < |lists| && lists[k].algorithm == alg
      ensures forall e :: e in lists[k].entries ==> |data| == |e.data| {
      EntriesFull(lists, added, k);
    }
  }

  lemma ComparedIs(alg: nat, n: nat)
    requires Sized(alg) && alg < TYPE_MAX && n == TableSize(alg)
    ensures ComparedSize(alg, n) == n
  {
    SizedNotEmpty(alg);
    hide TableSize;
  }

  lemma NoEntries(flags: Flags, alg: nat, sz: nat)
    ensures NewList(flags, alg, sz).entries == []
  {
  }

  lemma EntriesFull(lists: seq<SigList>, added: multiset<nat>, k: nat)
    requires Inv(lists, added) && k < |lists|
    ensures lists[k].algorithm < TYPE_MAX && forall e :: e in lists[k].entries ==> |e.data| == TableSize(lists[k].algorithm)
  {
    hide TableSize, DistinctBy, SizeAfter, Listed;
    assert lists[k] in lists;
  }

  // ---------- runs ----------

  datatype Op =
    | AddOp(owner: Guid, algorithm: nat, data: seq<byte>)
    | DelOp(owner: Guid, algorithm: nat, data: seq<byte>)
    | ParseOp(file: seq<Esl>)
    | FlagOp(flag: int, value: bool)

  datatype State = State(flags: Flags, lists: seq<SigList>)

  /** The operations of a run: right-sized entries, well-formed files, and no switch to unsorted lists. */
  predicate Allowed(op: Op) {
    match op
    case AddOp(_, alg, data) => RightSize(alg, data)
    case DelOp(_, alg, data) => RightSize(alg, data)
    case ParseOp(file) => RightFile(file)
    case FlagOp(flag, value) => flag != 0 || value
  }

  function MapOp(a: Ideal, op: Op): (a': Ideal) {
    match op
    case AddOp(owner, alg, data) => MapAdd(a, owner, alg, data)
    case DelOp(owner, alg, data) => MapDel(a, owner, alg, data)
    case ParseOp(file) => MapAddAll(a, Contents(file))
    case FlagOp(_, _) => a
  }

  const NOTHING := Ideal(map[], multiset{})

  /** The map after a run that starts empty. */
  function MapRun(ops: seq<Op>): (a: Ideal) {
    if ops == [] then NOTHING else MapOp(MapRun(ops[..|ops| - 1]), ops[|ops| - 1])
  }

  lemma OpGrows(a: Ideal, op: Op)
    ensures a.added <= MapOp(a, op).added
  {
    hide MapAddAll, Contents;
    if op.ParseOp? {
      AddAllGrows(a, Contents(op.file));
    }
  }

  function SetFlag(f: Flags, flag: int, value: bool): (f': Flags) {
    match flag
    case 0 => f.(sort := value)
    case 1 => f.(sortData := value)
    case 2 => f.(descending := value)
    case _ => f
  }

  /** A parse that reads past its buffer. */
  predicate Overruns(op: Op)
    requires Allowed(op)
  {
    op.ParseOp? && |Layout(op.file)| >= TWO32
  }

  /** What one operation may do to the database; what follows a read past a buffer is not part of any run. */
  ghost predicate Does(s: State, op: Op, s': State)
    requires Allowed(op)
  {
    match op
    case AddOp(owner, alg, data) =>
      && s'.flags == s.flags && !AddOver(s.flags, s.lists, alg, data, false)
      && AddPost(s.flags, s.lists, owner, alg, data, false, s'.lists)
    case DelOp(owner, alg, data) =>
      !DelOver(s.lists, owner, alg, data) && s' == s.(lists := DelPost(s.lists, owner, alg, data))
    case ParseOp(file) => s'.flags == s.flags && ParsePost(s.flags, s.lists, Layout(file), Parsed, s'.lists)
    case FlagOp(flag, value) => s' == s.(flags := SetFlag(s.flags, flag, value))
  }

  lemma AllowedSize(op: Op)
    requires Allowed(op)
    ensures op.AddOp? || op.DelOp? ==> RightSize(op.algorithm, op.data) && op.algorithm < TYPE_MAX && op.data != []
    ensures op.ParseOp? ==> RightFile(op.file) && Sizeable(op.file) && op.file != []
    ensures op.ParseOp? ==> (forall l :: l in op.file ==> WellFormed(l)) && |Layout(op.file)| < TWO64
  {
    if op.ParseOp? {
      RightFileIs(op.file);
      hide RightFile;
    } else {
      hide RightFile;
    }
  }

  /** The operation may read past a buffer or a stored entry. */
  ghost predicate CanOverrun(s: State, op: Op)
    requires Allowed(op)
  {
    match op
    case AddOp(_, alg, data) => AddOver(s.flags, s.lists, alg, data, false)
    case DelOp(owner, alg, data) => DelOver(s.lists, owner, alg, data)
    case ParseOp(file) => exists lists' :: ParsePost(s.flags, s.lists, Layout(file), Overran, lists')
    case FlagOp(_, _) => false
  }

  lemma NotRefused(flags: Flags, lists: seq<SigList>, file: seq<Esl>, p: Parsing, lists': seq<SigList>)
    requires file != [] && Sizeable(file) && |Layout(file)| < TWO64
    requires ParsePost(flags, lists, Layout(file), p, lists')
    ensures p != Refused
  {
    FetchesFile(file);
    hide Fetches, Layout, Contents, AddAll, Moving, Start, StopsAt, Completes;
  }

  /** The engine does what `Does` says, unless it reads past a buffer or a stored entry. */
  method Apply(db: Database, op: Op) returns (overran: bool)
    requires Allowed(op)
    modifies db
    ensures overran ==> CanOverrun(old(State(db.flags, db.lists)), op)
    ensures !overran ==> Does(old(State(db.flags, db.lists)), op, State(db.flags, db.lists))
  {
    AllowedSize(op);
    hide AddPost, DelPost, ParsePost, Layout, RightFile, RightSize, AddOver, DelOver, Find, Select;
    overran := false;
    match op {
      case AddOp(owner, alg, data) =>
        var rc;
        rc, overran := db.AddEntryOrList(owner, alg, data, false);
      case DelOp(owner, alg, data) =>
        var rc;
        rc, overran := db.DelEntry(owner, alg, data);
      case ParseOp(file) =>
        var p, _ := Parse(db, Layout(file));
        NotRefused(db.flags, old(db.lists), file, p, db.lists);
        overran := p == Overran;
      case FlagOp(flag, value) => var _ := db.SetBool(flag, value);
    }
  }

  /** In a run it does so exactly when it parses 4 GiB or more. */
  lemma RightOverruns(s: State, a: Ideal, op: Op)
    requires Allowed(op) && Unwrapped(MapOp(a, op).added) && s.flags.sort && Refines(s.lists, a)
    ensures CanOverrun(s, op) ==> Overruns(op)
    ensures Overruns(op) ==> forall s' :: !Does(s, op, s')
  {
    AllowedSize(op);
    RefinesInv(s.lists, a);
    hide Inv, Represents, Refines, AddPost, DelPost, ParsePost, MapAdd, MapDel, MapAddAll, Contents, RightSize, RightFile,
      Layout, Unwrapped, AddOver, DelOver, Select, Find;
    match op
    case AddOp(owner, alg, data) => AddInside(s.flags, s.lists, a.added, alg, data);
    case DelOp(owner, alg, data) => DelInside(s.flags, s.lists, a.added, owner, alg, data);
    case ParseOp(file) =>
      forall p, lists' | ParsePost(s.flags, s.lists, Layout(file), p, lists') ensures p == EndingAt(|Layout(file)|) {
        ParseRefines(s.flags, s.lists, a, file, p, lists');
      }
    case FlagOp(_, _) =>
  }

  ghost predicate Runs(states: seq<State>, ops: seq<Op>)
    requires forall op :: op in ops ==> Allowed(op)
  {
    && |states| == |ops| + 1
    && states[0].lists == [] && states[0].flags.sort
    && forall i :: 0 <= i < |ops| ==> Does(states[i], ops[i], states[i + 1])
  }

  lemma StepRefines(s: State, a: Ideal, op: Op, s': State)
    requires Allowed(op) && Does(s, op, s') && Unwrapped(MapOp(a, op).added)
    requires s.flags.sort && Refines(s.lists, a)
    ensures s'.flags.sort && Refines(s'.lists, MapOp(a, op))
  {
    AllowedSize(op);
    hide Inv, Represents, AddPost, DelPost, ParsePost, MapAdd, MapDel, MapAddAll, Contents, RightSize, RightFile, Layout,
      Unwrapped;
    match op
    case AddOp(owner, alg, data) => AddRefines(s.flags, s.lists, a, owner, alg, data, s'.lists);
    case DelOp(owner, alg, data) => DelRefines(s.lists, a, owner, alg, data);
    case ParseOp(file) => ParseRefines(s.flags, s.lists, a, file, Parsed, s'.lists);
    case FlagOp(flag, value) =>
  }

  lemma EmptyRefines()
    ensures Refines([], NOTHING)
  {
  }

  /** Every run refines the map, at every point of the run. Only SHA-1 and SHA-224 additions are bounded, by the
      numbers that bring the size of their list back to zero. */
  lemma {:induction false} RunRefines(states: seq<State>, ops: seq<Op>)
    requires (forall op :: op in ops ==> Allowed(op)) && Runs(states, ops) && Unwrapped(MapRun(ops).added)
    ensures states[|ops|].flags.sort && Refines(states[|ops|].lists, MapRun(ops))
    decreases |ops|
  {
    hide Does, Refines, MapOp, Allowed, Unwrapped;
    if ops == [] {
      EmptyRefines();
    } else {
      var k := |ops| - 1;
      OpGrows(MapRun(ops[..k]), ops[k]);
      UnwrappedBelow(MapRun(ops[..k]).added, MapRun(ops).added);
      RunRefines(states[..k + 1], ops[..k]);
      assert ops[k] in ops;
      StepRefines(states[k], MapRun(ops[..k]), ops[k], states[k + 1]);
    }
  }

  // ---------- what a wrapped size breaks ----------

  /** A list of another type that has come back to size zero and lies behind every list of this type. */
  ghost predicate Shadowed(lists: seq<SigList>, alg: nat) {
    exists i :: 0 <= i < |lists| && lists[i].listsz == 0 && lists[i].algorithm != alg
      && forall j :: i < j < |lists| ==> lists[j].algorithm != alg
  }

  /** The search finds a list of the type, or none when there is none, if and only if no list shadows it. */
  lemma SearchIsRightIff(lists: seq<SigList>, alg: nat, datasz: nat)
    requires Sized(alg) && forall l :: l in lists ==> Uniform(l)
    ensures match Find(lists, alg, datasz)
      case Some(k) => lists[k].algorithm == alg <==> !Shadowed(lists, alg)
      case None => !Shadowed(lists, alg) && !Listed(lists, alg)
  {
    SizedNotEmpty(alg);
    FoundLast(lists, |lists|, alg, EntrySize(alg));
    forall l | l in lists ensures Matches(l, alg, EntrySize(alg)) <==> l.listsz == 0 || l.algorithm == alg {
      assert Uniform(l);
    }
    hide Uniform, Matches, Sized;
    assert forall i :: 0 <= i < |lists| ==> lists[i] in lists;
  }

  lemma {:induction false} FoundLast(lists: seq<SigList>, n: nat, alg: nat, want: nat)
    requires n <= |lists|
    ensures match FindFrom(lists, n, alg, want)
      case Some(k) => forall i :: k < i < n ==> !Matches(lists[i], alg, want)
      case None => true
    decreases n
  {
    if n > 0 && !Matches(lists[n - 1], alg, want) {
      FoundLast(lists, n - 1, alg, want);
    }
  }

  /** One addition more than the bound: the SHA-1 list gets size zero, and the next SHA-256 entry goes into it. */
  lemma WrapBreaksSearch(flags: Flags, owner: Guid, data: seq<byte>, other: seq<byte>)
    requires |data| == 20 && |other| == 32
    ensures var before := SigList(SHA1, 36, SHA1_WRAP - 1, SizeAfter(SHA1, SHA1_WRAP - 1), flags, []);
      && Good(before, SHA1_WRAP - 1)
      && var after := Appended(before, owner, data);
      && after.listsz == 0 && after.entries == [Entry(owner, data)]
      && var (ls, k) := Select(flags, [after], SHA256, |other| + 16, false);
      k == 0 && ls[0] == after.(algorithm := SHA256, sigsz := 48)
  {
    Sha1Zero(SHA1_WRAP - 1);
    Sha1Zero(SHA1_WRAP);
    var before := SigList(SHA1, 36, SHA1_WRAP - 1, SizeAfter(SHA1, SHA1_WRAP - 1), flags, []);
    var after := Appended(before, owner, data);
    hide U32;
    assert after.listsz == U32(28 + 36 * SHA1_WRAP) == 0;
    assert Matches(after, SHA256, 48);
    assert Find([after], SHA256, 48) == Some(0);
    assert GivenSize(SHA256, 48) == U32(48);
  }

  // ---------- visiting shows the map ----------

  lemma UniformReadable(l: SigList)
    requires Uniform(l)
    ensures Readable(l) && SeenAll(l) == l.entries
  {
    SizedNotEmpty(l.algorithm);
    assert Readable(l);
    forall j | 0 <= j < |l.entries| ensures Seen(l, j) == l.entries[j] {
      assert l.entries[j] in l.entries;
    }
  }

  lemma InvReadable(lists: seq<SigList>, added: multiset<nat>)
    requires Inv(lists, added)
    ensures AllReadable(lists)
  {
    hide Uniform, Readable, SeenAll, DistinctBy;
    forall i | 0 <= i < |lists| ensures Readable(lists[i]) {
      assert Good(lists[i], added[lists[i].algorithm]);
      UniformReadable(lists[i]);
    }
  }

  lemma InvUniform(lists: seq<SigList>, added: multiset<nat>, i: nat)
    requires Inv(lists, added) && i < |lists|
    ensures Uniform(lists[i])
  {
    hide Uniform, DistinctBy;
    assert Good(lists[i], added[lists[i].algorithm]);
  }

  lemma VisitOfUniform(l: SigList, i: nat, j: nat)
    requires Uniform(l) && Readable(l) && j < |l.entries|
    ensures VisitsOf(l, i)[j] == Visited(i, j, l.algorithm, l.entries[j])
  {
    UniformReadable(l);
    hide Uniform, Readable;
    assert SeenAll(l)[j] == Seen(l, j);
  }

  /** Each visit is an entry of a list, named by its two numbers. */
  lemma {:induction false} VisitsAre(lists: seq<SigList>, added: multiset<nat>, i: nat, v: nat)
    requires Inv(lists, added) && AllReadable(lists) && i <= |lists| && v < |Visits(lists, i)|
    ensures var x := Visits(lists, i)[v];
      x.listnum < i && x.signum < |lists[x.listnum].entries|
      && x.algorithm == lists[x.listnum].algorithm && x.entry == lists[x.listnum].entries[x.signum]
  {
    hide Inv, Readable, VisitsOf;
    if i > 0 {
      if v < |Visits(lists, i - 1)| {
        VisitsAre(lists, added, i - 1, v);
      } else {
        InvUniform(lists, added, i - 1);
        VisitOfUniform(lists[i - 1], i - 1, v - |Visits(lists, i - 1)|);
      }
    }
  }

  /** No two visits have the same numbers. */
  lemma {:induction false} VisitsOnce(lists: seq<SigList>, added: multiset<nat>, i: nat, v: nat, w: nat)
    requires Inv(lists, added) && AllReadable(lists) && i <= |lists| && v < w < |Visits(lists, i)|
    ensures var x, y := Visits(lists, i)[v], Visits(lists, i)[w]; (x.listnum, x.signum) != (y.listnum, y.signum)
  {
    hide Inv, Readable, VisitsOf;
    if i > 0 {
      var c := |Visits(lists, i - 1)|;
      InvUniform(lists, added, i - 1);
      if w < c {
        VisitsOnce(lists, added, i - 1, v, w);
      } else {
        VisitOfUniform(lists[i - 1], i - 1, w - c);
        if v < c {
          VisitsAre(lists, added, i - 1, v);
        } else {
          VisitOfUniform(lists[i - 1], i - 1, v - c);
        }
      }
    }
  }

  lemma {:induction false} VisitsReach(lists: seq<SigList>, added: multiset<nat>, i: nat, k: nat, j: nat) returns (v: nat)
    requires Inv(lists, added) && AllReadable(lists) && k < i <= |lists| && j < |lists[k].entries|
    ensures v < |Visits(lists, i)| && Visits(lists, i)[v] == Visited(k, j, lists[k].algorithm, lists[k].entries[j])
    decreases i
  {
    hide Inv, Readable, VisitsOf;
    InvUniform(lists, added, i - 1);
    if k == i - 1 {
      VisitOfUniform(lists[k], k, j);
      v := |Visits(lists, i - 1)| + j;
    } else {
      v := VisitsReach(lists, added, i - 1, k, j);
    }
  }

  function VisitKey(v: Visited): (k: (nat, seq<byte>)) { (v.algorithm, v.entry.data) }

  lemma VisitsApart(lists: seq<SigList>, added: multiset<nat>)
    requires Inv(lists, added) && AllReadable(lists)
    ensures DistinctBy(Visits(lists, |lists|), VisitKey)
  {
    var vs := Visits(lists, |lists|);
    hide Inv, Visits, AllReadable, VisitKey;
    forall i, j | 0 <= i < j < |vs| ensures VisitKey(vs[i]) != VisitKey(vs[j]) {
      VisitsAre(lists, added, |lists|, i);
      VisitsAre(lists, added, |lists|, j);
      VisitsOnce(lists, added, |lists|, i, j);
      KeysDiffer(lists, added, vs[i], vs[j]);
    }
  }

  lemma VisitIsPresent(lists: seq<SigList>, added: multiset<nat>, v: Visited)
    requires Inv(lists, added) && AllReadable(lists) && v in Visits(lists, |lists|)
    ensures Present(lists, v.algorithm, v.entry)
  {
    var vs := Visits(lists, |lists|);
    hide Inv, Visits, AllReadable;
    var i :| 0 <= i < |vs| && vs[i] == v;
    VisitsAre(lists, added, |lists|, i);
    assert lists[v.listnum] in lists;
  }

  lemma PresentIsVisited(lists: seq<SigList>, added: multiset<nat>, alg: nat, e: Entry)
    requires Inv(lists, added) && AllReadable(lists) && Present(lists, alg, e)
    ensures exists v :: v in Visits(lists, |lists|) && v.algorithm == alg && v.entry == e
  {
    hide Inv, Visits, AllReadable;
    var l :| l in lists && l.algorithm == alg && e in l.entries;
    var k :| 0 <= k < |lists| && lists[k] == l;
    var j :| 0 <= j < |l.entries| && l.entries[j] == e;
    var v := VisitsReach(lists, added, |lists|, k, j);
    assert Visits(lists, |lists|)[v] in Visits(lists, |lists|);
  }

  /** A visit shows exactly the map, each key once: its calls, over lists that are all of known type, carry the
      entries `vs`, whose bytes are all there. */
  lemma VisitShowsMap(lists: seq<SigList>, added: multiset<nat>, m: Store)
    requires Inv(lists, added) && Represents(lists, m)
    ensures AllReadable(lists) && Known(lists) == |lists|
    ensures var vs, calls := Visits(lists, |lists|), Shows(lists, |lists|);
      |calls| == |vs| && forall i :: 0 <= i < |vs| ==> ShowsEntry(calls[i], vs[i])
    ensures var vs := Visits(lists, |lists|);
      && DistinctBy(vs, VisitKey)
      && (forall v :: v in vs ==> Maps(m, v.algorithm, v.entry))
      && (forall alg, e :: Maps(m, alg, e) ==> exists v :: v in vs && v.algorithm == alg && v.entry == e)
  {
    hide Inv, AllReadable, Maps, Visits, Present, DistinctBy, Known, Shows, ShowsEntry;
    InvReadable(lists, added);
    AllKnown(lists);
    ShowsVisits(lists, |lists|);
    VisitsApart(lists, added);
    var vs := Visits(lists, |lists|);
    forall v | v in vs ensures Maps(m, v.algorithm, v.entry) {
      VisitIsPresent(lists, added, v);
    }
    forall alg, e | Maps(m, alg, e) ensures exists v :: v in vs && v.algorithm == alg && v.entry == e {
      PresentIsVisited(lists, added, alg, e);
    }
  }

  lemma KeysDiffer(lists: seq<SigList>, added: multiset<nat>, x: Visited, y: Visited)
    requires Inv(lists, added) && (x.listnum, x.signum) != (y.listnum, y.signum)
    requires x.listnum < |lists| && x.signum < |lists[x.listnum].entries|
    requires x.algorithm == lists[x.listnum].algorithm && x.entry == lists[x.listnum].entries[x.signum]
    requires y.listnum < |lists| && y.signum < |lists[y.listnum].entries|
    requires y.algorithm == lists[y.listnum].algorithm && y.entry == lists[y.listnum].entries[y.signum]
    ensures VisitKey(x) != VisitKey(y)
  {
    InvUniform(lists, added, x.listnum);
    InvDistinct(lists, added);
    hide Good, Inv;
    if x.listnum == y.listnum {
      assert DataOf(x.entry) != DataOf(y.entry);
    } else {
      assert AlgorithmOf(lists[x.listnum]) != AlgorithmOf(lists[y.listnum]);
    }
  }
}
