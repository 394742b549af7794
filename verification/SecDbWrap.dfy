/**
  The bound on additions is exact: a run that adds and deletes one SHA-224 value until the size of its list comes back
  to zero. The SHA-1 value added next goes into that list.
 */
module SecDbWrap {
  import opened Bytes
  import opened EslIter
  import opened Guids
  import opened Sorting
  import opened SecDb
  import opened SecDbFile
  import opened SecDbRuns
  import opened SecDbCanonical

  /** A list that has seen `n` additions. */
  function Worn(n: nat, es: seq<Entry>): (l: SigList) {
    SigList(SHA224, 44, n, SizeAfter(SHA224, n), NewFlags(), es)
  }

  /** An addition to a database of at most one list. */
  lemma AddsAlone(lists: seq<SigList>, owner: Guid, alg: nat, data: seq<byte>, l: SigList)
    requires alg < TYPE_MAX && Select(NewFlags(), lists, alg, |data| + 16, false) == ([l], 0)
    requires l.flags == NewFlags() && !Duplicate(l, data)
    requires forall e :: e in l.entries ==> |data| <= |e.data|
    ensures AddPost(NewFlags(), lists, owner, alg, data, false, [Appended(l, owner, data)])
    ensures !AddOver(NewFlags(), lists, alg, data, false)
  {
    AddOverIs(NewFlags(), lists, alg, data, false);
    NoAddOverread(l.entries, 0, data);
    hide Select, Duplicate, ListsSorted, Appended, AddOver, AddOverreads;
    var l' := Appended(l, owner, data);
    AppendedFlags(l, owner, data);
    assert EntriesSorted(l', |data|, l'.entries);
    assert Extended([l], 0, owner, data, l'.entries) == [l'];
  }

  lemma AppendsTo(l: SigList, owner: Guid, data: seq<byte>)
    requires data != [] && l.entries == [] && l == Worn(l.nsigs, []).(listsz := l.listsz)
    ensures Appended(l, owner, data) == Worn(l.nsigs + 1, [Entry(owner, data)])
  {
    hide U32, Appended;
    AppendedIs(l, owner, data);
    assert [] + [Entry(owner, data)] == [Entry(owner, data)];
  }

  lemma AddsFirst(owner: Guid, data: seq<byte>)
    requires |data| == 28
    ensures AddPost(NewFlags(), [], owner, SHA224, data, false, [Worn(1, [Entry(owner, data)])])
    ensures !AddOver(NewFlags(), [], SHA224, data, false)
  {
    var l := Worn(0, []).(listsz := 0);
    SelectIs(NewFlags(), [], SHA224, |data| + 16);
    assert [] + [l] == [l];
    AppendsTo(l, owner, data);
    hide Select, Appended, AddPost, Worn;
    AddsAlone([], owner, SHA224, data, l);
  }

  lemma SelectsWorn(n: nat, es: seq<Entry>, sz: nat)
    ensures Select(NewFlags(), [Worn(n, es)], SHA224, sz, false) == ([Worn(n, es)], 0)
  {
    var lists := [Worn(n, es)];
    hide U32;
    assert Matches(lists[0], SHA224, 44);
    assert Find(lists, SHA224, sz) == Some(0);
    hide Find;
    assert lists[0 := Worn(n, es)] == lists;
  }

  lemma AddsAgain(n: nat, owner: Guid, data: seq<byte>)
    requires |data| == 28
    ensures AddPost(NewFlags(), [Worn(n, [])], owner, SHA224, data, false, [Worn(n + 1, [Entry(owner, data)])])
    ensures !AddOver(NewFlags(), [Worn(n, [])], SHA224, data, false)
  {
    SelectsWorn(n, [], |data| + 16);
    AppendsTo(Worn(n, []), owner, data);
    hide Select, U32, Appended, AddPost;
    AddsAlone([Worn(n, [])], owner, SHA224, data, Worn(n, []));
  }

  lemma DelsAgain(n: nat, owner: Guid, data: seq<byte>)
    requires |data| == 28
    ensures DelPost([Worn(n, [Entry(owner, data)])], owner, SHA224, data) == [Worn(n, [])]
    ensures !DelOver([Worn(n, [Entry(owner, data)])], owner, SHA224, data)
  {
    hide U32;
    var l := Worn(n, [Entry(owner, data)]);
    assert Matches(l, SHA224, 44);
    assert Find([l], SHA224, |data|) == Some(0);
    hide Find;
    assert SameData(data, l.entries[0], 28);
    assert FirstMatch(l.entries, 0, owner, data, 28) == 0;
    NoDelOverread(l.entries, 0, owner, data, 28);
    assert Without(l.entries, 0) == [] && ComparedSize(SHA224, |data|) == 28;
    assert [l][0 := Worn(n, [])] == [Worn(n, [])];
  }

  lemma WrappedMatches(es: seq<Entry>, alg: nat, sz: nat)
    requires alg < TYPE_MAX
    ensures Find([Worn(SHA224_WRAP, es)], alg, sz) == Some(0)
  {
    Sha224Zero(SHA224_WRAP);
    hide U32;
    assert Matches([Worn(SHA224_WRAP, es)][0], alg, Wanted(alg, sz));
  }

  lemma AddsAstray(owner: Guid, data: seq<byte>, other: seq<byte>) returns (l': SigList)
    requires |data| == 28 && |other| == 20 && other != data[..20]
    ensures l'.algorithm == SHA1 && l'.entries == [Entry(owner, data), Entry(owner, other)]
    ensures AddPost(NewFlags(), [Worn(SHA224_WRAP, [Entry(owner, data)])], owner, SHA1, other, false, [l'])
    ensures !AddOver(NewFlags(), [Worn(SHA224_WRAP, [Entry(owner, data)])], SHA1, other, false)
  {
    var w := Worn(SHA224_WRAP, [Entry(owner, data)]);
    var l := w.(algorithm := SHA1, sigsz := 36);
    WrappedMatches(w.entries, SHA1, |other| + 16);
    hide Find, Worn;
    assert [w][0 := l] == [l];
    assert !Duplicate(l, other);
    AppendedIs(l, owner, other);
    hide Select, Appended, Duplicate, AddPost;
    AddsAlone([w], owner, SHA1, other, l);
    l' := Appended(l, owner, other);
  }

  // ---------- the run ----------

  /** A run from a new database that ends in `s`, where the map says `a`. */
  ghost predicate Leads(ops: seq<Op>, s: State, a: Ideal) {
    && (forall op :: op in ops ==> Allowed(op))
    && MapRun(ops) == a
    && exists states: seq<State> :: Runs(states, ops) && states[0].flags == NewFlags() && states[|ops|] == s
  }

  lemma LeadsNone()
    ensures Leads([], State(NewFlags(), []), NOTHING)
  {
    RunsNone(State(NewFlags(), []));
  }

  lemma LeadsNext(ops: seq<Op>, s: State, a: Ideal, op: Op, s': State)
    requires Leads(ops, s, a) && Allowed(op) && Does(s, op, s')
    ensures Leads(ops + [op], s', MapOp(a, op))
  {
    var states: seq<State> :| Runs(states, ops) && states[0].flags == NewFlags() && states[|ops|] == s;
    RunsSnoc(states, ops, s', op);
    hide Runs, Does, MapOp, Allowed;
    assert (ops + [op])[..|ops|] == ops;
  }

  lemma LeadsAdd(
      ops: seq<Op>, lists: seq<SigList>, a: Ideal, owner: Guid, alg: nat, data: seq<byte>, lists': seq<SigList>)
    requires Leads(ops, State(NewFlags(), lists), a) && alg < TYPE_MAX && RightSize(alg, data)
    requires AddPost(NewFlags(), lists, owner, alg, data, false, lists') && !AddOver(NewFlags(), lists, alg, data, false)
    ensures Leads(ops + [AddOp(owner, alg, data)], State(NewFlags(), lists'), MapAdd(a, owner, alg, data))
  {
    hide AddPost, AddOver, Leads, MapAdd, RightSize;
    LeadsNext(ops, State(NewFlags(), lists), a, AddOp(owner, alg, data), State(NewFlags(), lists'));
  }

  lemma LeadsDel(ops: seq<Op>, lists: seq<SigList>, a: Ideal, owner: Guid, alg: nat, data: seq<byte>)
    requires Leads(ops, State(NewFlags(), lists), a) && alg < TYPE_MAX && RightSize(alg, data)
    requires !DelOver(lists, owner, alg, data)
    ensures var lists' := DelPost(lists, owner, alg, data);
      Leads(ops + [DelOp(owner, alg, data)], State(NewFlags(), lists'), MapDel(a, owner, alg, data))
  {
    hide DelPost, DelOver, Leads, MapDel, RightSize;
    var lists' := DelPost(lists, owner, alg, data);
    LeadsNext(ops, State(NewFlags(), lists), a, DelOp(owner, alg, data), State(NewFlags(), lists'));
  }

  function Adds(n: nat): (a: Ideal) { Ideal(map[], multiset{}[SHA224 := n]) }

  lemma NoAdds()
    ensures Adds(0) == NOTHING
  {
  }

  lemma AddAndDelete(owner: Guid, data: seq<byte>, n: nat)
    ensures MapDel(MapAdd(Adds(n), owner, SHA224, data), owner, SHA224, data) == Adds(n + 1)
  {
  }

  lemma Sizes(data: seq<byte>)
    ensures |data| == 28 ==> 0 <= SHA224 < TYPE_MAX && RightSize(SHA224, data)
    ensures |data| == 20 ==> 0 <= SHA1 < TYPE_MAX && RightSize(SHA1, data)
  {
  }

  /** One value, added and deleted `n` times. */
  lemma {:induction false} Wears(owner: Guid, data: seq<byte>, n: nat) returns (ops: seq<Op>)
    requires |data| == 28 && n > 0
    ensures Leads(ops, State(NewFlags(), [Worn(n, [])]), Adds(n))
    decreases n
  {
    hide *;
    Sizes(data);
    var lists, e := [], Entry(owner, data);
    if n == 1 {
      ops := [];
      LeadsNone();
      NoAdds();
      AddsFirst(owner, data);
    } else {
      ops := Wears(owner, data, n - 1);
      lists := [Worn(n - 1, [])];
      AddsAgain(n - 1, owner, data);
    }
    LeadsAdd(ops, lists, Adds(n - 1), owner, SHA224, data, [Worn(n, [e])]);
    ops := ops + [AddOp(owner, SHA224, data)];
    DelsAgain(n, owner, data);
    AddAndDelete(owner, data, n - 1);
    LeadsDel(ops, [Worn(n, [e])], MapAdd(Adds(n - 1), owner, SHA224, data), owner, SHA224, data);
    ops := ops + [DelOp(owner, SHA224, data)];
  }

  /** The map keeps the two values apart. */
  lemma AstrayMap(owner: Guid, data: seq<byte>, other: seq<byte>, n: nat)
    requires |data| != |other|
    ensures var a := MapAdd(MapAdd(Adds(n), owner, SHA224, data), owner, SHA1, other);
      a.added[SHA224] == n + 1 && a.added[SHA1] == 1 && (SHA1, data) !in a.store
  {
  }

  lemma NotRepresented(l: SigList, m: Store, e: Entry)
    requires e in l.entries && (l.algorithm, e.data) !in m
    ensures !Represents([l], m)
  {
    assert l in [l];
    assert Present([l], l.algorithm, e);
  }

  /** The last additions: the map holds two values of different types, the database one list. */
  lemma WrapBreaksRun(owner: Guid, data: seq<byte>, other: seq<byte>) returns (ops: seq<Op>, lists: seq<SigList>)
    requires |data| == 28 && |other| == 20 && other != data[..20]
    ensures Leads(ops, State(NewFlags(), lists), MapRun(ops))
    ensures MapRun(ops).added[SHA224] == SHA224_WRAP && MapRun(ops).added[SHA1] == 1
    ensures !Represents(lists, MapRun(ops).store)
  {
    var n: nat := SHA224_WRAP - 1;
    assert n > 0 && n + 1 == SHA224_WRAP;
    hide *;
    Sizes(data);
    Sizes(other);
    ops := Wears(owner, data, n);
    AddsAgain(n, owner, data);
    var held := [Worn(SHA224_WRAP, [Entry(owner, data)])];
    LeadsAdd(ops, [Worn(n, [])], Adds(n), owner, SHA224, data, held);
    ops := ops + [AddOp(owner, SHA224, data)];
    var l := AddsAstray(owner, data, other);
    LeadsAdd(ops, held, MapAdd(Adds(n), owner, SHA224, data), owner, SHA1, other, [l]);
    ops := ops + [AddOp(owner, SHA1, other)];
    lists := [l];
    AstrayMap(owner, data, other, n);
    NotRepresented(l, MapRun(ops).store, Entry(owner, data));
  }
}
