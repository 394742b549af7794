/**
  What the sort flags and the direction come to, said on bytes: the order of the entries and the lists that
  a run leaves, and that the opposite direction leaves both reversed.
 */
module SecDbDirection {
  import opened Bytes
  import opened EslIter
  import opened Guids
  import opened Sorting
  import opened SecDb
  import opened SecDbFile
  import opened SecDbRuns
  import opened SecDbCanonical

  // ---------- the order of byte strings ----------

  /** The first byte that differs is smaller in `a`. */
  ghost predicate Below(a: seq<byte>, b: seq<byte>) {
    exists k :: 0 <= k < |a| && k < |b| && a[..k] == b[..k] && a[k] < b[k]
  }

  lemma BelowTails(a: seq<byte>, b: seq<byte>)
    requires a != [] && b != [] && a[0] == b[0]
    ensures Below(a, b) <==> Below(a[1..], b[1..])
  {
    var s, t := a[1..], b[1..];
    assert a == [a[0]] + s && b == [b[0]] + t;
    if k :| 0 <= k < |a| && k < |b| && a[..k] == b[..k] && a[k] < b[k] {
      assert s[..k - 1] == a[..k][1..] && t[..k - 1] == b[..k][1..];
      assert s[k - 1] < t[k - 1];
    }
    if k :| 0 <= k < |s| && k < |t| && s[..k] == t[..k] && s[k] < t[k] {
      assert a[..k + 1] == [a[0]] + s[..k] && b[..k + 1] == [b[0]] + t[..k];
      assert a[k + 1] < b[k + 1];
    }
  }

  lemma {:induction false} LexBelow(a: seq<byte>, b: seq<byte>)
    requires |a| == |b|
    ensures Lex(a, b) < 0 <==> Below(a, b)
    decreases |a|
  {
    if a != [] {
      if a[0] == b[0] {
        BelowTails(a, b);
        LexBelow(a[1..], b[1..]);
      } else if a[0] < b[0] {
        assert a[..0] == b[..0];
      } else if k :| 0 <= k < |a| && k < |b| && a[..k] == b[..k] && a[k] < b[k] {
        assert k > 0 && a[..k][0] == b[..k][0];
      }
    }
  }

  // ---------- what a run leaves ----------

  /** The owner as its text shows it, and the data. */
  function Text(e: Entry): (s: seq<byte>) {
    Display(e.owner) + e.data
  }

  /** The first comes before the second in the given direction. */
  ghost predicate Precedes(a: Entry, b: Entry, d: bool) {
    if d then Below(Text(b), Text(a)) else Below(Text(a), Text(b))
  }

  /** An entry with only the first `sz` bytes of its data. */
  function Cut(e: Entry, sz: nat): (r: Entry)
    requires sz <= |e.data|
  {
    Entry(e.owner, e.data[..sz])
  }

  /** The comparator of either direction, on the bytes it compares. */
  lemma EntryOrderBelow(a: Entry, b: Entry, sz: nat, d: bool)
    requires sz <= |a.data| && sz <= |b.data|
    ensures EntryOrder(sz, d)(a, b) < 0 <==> Precedes(Cut(a, sz), Cut(b, sz), d)
  {
    var s, t := Text(Cut(a, sz)), Text(Cut(b, sz));
    assert Key(a, sz) == s && Key(b, sz) == t;
    LexBelow(s, t);
    LexBelow(t, s);
    hide Lex, Key, Below, Text;
  }

  /** Lists of one type are ordered by the size of their entries and then by their own, in the same direction; one that has no
      type yet comes first, or last when descending. */
  lemma SameTypeBySize(a: SigList, b: SigList, d: bool)
    requires a.algorithm == b.algorithm != TYPE_MAX
    requires a.sigsz < 0x8000_0000 && b.sigsz < 0x8000_0000 && a.listsz < 0x8000_0000 && b.listsz < 0x8000_0000
    ensures var x, y := if d then b else a, if d then a else b;
      ListOrder(d)(a, b) < 0 <==> x.sigsz < y.sigsz || (x.sigsz == y.sigsz && x.listsz < y.listsz)
  {
  }

  lemma UntypedFirst(a: SigList, b: SigList)
    requires a.algorithm == TYPE_MAX && b.algorithm != TYPE_MAX
    ensures ListOrder(false)(a, b) < 0 && ListOrder(false)(b, a) > 0
    ensures ListOrder(true)(b, a) < 0 && ListOrder(true)(a, b) > 0
  {
  }

  /** Every list in the order of its direction, and the lists by type in the same direction. */
  ghost predicate Directed(lists: seq<SigList>, d: bool) {
    && (forall n, i, j :: 0 <= n < |lists| && 0 <= i < j < |lists[n].entries| ==>
         Precedes(lists[n].entries[i], lists[n].entries[j], d))
    && (forall i, j :: 0 <= i < j < |lists| ==>
         if d then lists[j].algorithm < lists[i].algorithm else lists[i].algorithm < lists[j].algorithm)
  }

  lemma OrderedDirected(lists: seq<SigList>, added: multiset<nat>, d: bool)
    requires Inv(lists, added) && Ordered(d, lists)
    ensures Directed(lists, d)
  {
    hide Inv, Precedes, Ordered, EntriesOrdered, EntryOrder;
    OrderedIs(d, lists);
    forall n, i, j | 0 <= n < |lists| && 0 <= i < j < |lists[n].entries|
      ensures Precedes(lists[n].entries[i], lists[n].entries[j], d) {
      var l := lists[n];
      assert l in lists;
      InvUniform(lists, added, n);
      EntriesStrict(l, d);
      UniformSize(l, i);
      UniformSize(l, j);
      EntryOrderBelow(l.entries[i], l.entries[j], TableSize(l.algorithm), d);
      CutWhole(l.entries[i]);
      CutWhole(l.entries[j]);
    }
    forall i, j | 0 <= i < j < |lists|
      ensures if d then lists[j].algorithm < lists[i].algorithm else lists[i].algorithm < lists[j].algorithm {
      ListsApart(lists, added, d, i, j);
    }
  }

  lemma CutWhole(e: Entry)
    ensures Cut(e, |e.data|) == e
  {
    assert e.data[..|e.data|] == e.data;
  }

  lemma UniformSize(l: SigList, i: nat)
    requires Uniform(l) && i < |l.entries|
    ensures l.algorithm < TYPE_MAX && |l.entries[i].data| == TableSize(l.algorithm)
  {
    assert l.entries[i] in l.entries;
    hide TableSize, DistinctBy;
  }

  /** After every run with both sort flags, each list has its entries by owner and data, and the lists are by type:
      ascending, or descending if that flag is on. */
  lemma RunDirected(states: seq<State>, ops: seq<Op>, d: bool)
    requires SortedRun(states, ops, d)
    ensures Directed(states[|ops|].lists, d)
  {
    SortedRunGives(states, ops, d);
    hide Inv, Ordered, Represents, Directed, SortedRun;
    OrderedDirected(states[|ops|].lists, MapRun(ops).added, d);
  }

  // ---------- the opposite direction ----------

  function Reversed<T>(s: seq<T>): (r: seq<T>)
    ensures |r| == |s|
    ensures forall i :: 0 <= i < |s| ==> r[i] == s[|s| - 1 - i]
  {
    seq(|s|, i requires 0 <= i < |s| => s[|s| - 1 - i])
  }

  lemma ReversedMembers<T>(s: seq<T>)
    ensures forall x :: x in Reversed(s) <==> x in s
    ensures Reversed(Reversed(s)) == s
  {
    forall x ensures x in Reversed(s) <==> x in s {
      if x in s {
        var i :| 0 <= i < |s| && s[i] == x;
        assert Reversed(s)[|s| - 1 - i] == x;
      }
    }
  }

  /** Two lists of one type with the same members, each in the order of its own direction. */
  lemma ReversedEntries(l1: SigList, l2: SigList, d: bool)
    requires Uniform(l1) && Uniform(l2) && EntriesOrdered(d, l1) && EntriesOrdered(!d, l2)
    requires l1.algorithm == l2.algorithm && forall e :: e in l1.entries <==> e in l2.entries
    ensures l2.entries == Reversed(l1.entries)
  {
    EntriesStrict(l1, d);
    EntriesStrict(l2, !d);
    ReversedMembers(l1.entries);
    var sz, r := TableSize(l1.algorithm), Reversed(l1.entries);
    forall a, b ensures EntryOrder(sz, !d)(a, b) == EntryOrder(sz, d)(b, a) {
    }
    hide EntryOrder, TableSize, Sized, Uniform;
    assert Strict(r, EntryOrder(sz, !d));
    hide Strict;
    StrictUnique(l2.entries, r, EntryOrder(sz, !d));
  }

  /** Both databases represent one map and are sorted in opposite directions. */
  ghost predicate Opposites(lists1: seq<SigList>, lists2: seq<SigList>, a1: Ideal, a2: Ideal, d: bool) {
    && Refines(lists1, a1) && Refines(lists2, a2) && a1.store == a2.store
    && Ordered(d, lists1) && Ordered(!d, lists2)
  }

  lemma OppositesSwap(lists1: seq<SigList>, lists2: seq<SigList>, a1: Ideal, a2: Ideal, d: bool)
    requires Opposites(lists1, lists2, a1, a2, d)
    ensures Opposites(lists2, lists1, a2, a1, !d)
    ensures Inv(lists1, a1.added) && Ordered(d, lists1)
  {
    hide Inv, Ordered, Represents;
  }

  function Turned(x: (nat, seq<Entry>)): (y: (nat, seq<Entry>)) {
    (x.0, Reversed(x.1))
  }

  lemma TurnedNames(lists1: seq<SigList>, lists2: seq<SigList>, a1: Ideal, a2: Ideal, d: bool, x: (nat, seq<Entry>))
    requires Opposites(lists1, lists2, a1, a2, d) && x in Named(lists1, |lists1|)
    ensures Turned(x) in Named(lists2, |lists2|)
  {
    NamedMembers(lists1, |lists1|, x.0, x.1);
    NamedMembers(lists2, |lists2|, x.0, Reversed(x.1));
    hide Refines, Named, InOrder, EntriesOrdered, Uniform;
    var i :| 0 <= i < |lists1| && lists1[i].algorithm == x.0 && lists1[i].entries == x.1 && x.1 != [];
    var j := SameMap(lists1, lists2, a1, a2, i);
    assert lists1[i] in lists1 && lists2[j] in lists2;
    ReversedEntries(lists1[i], lists2[j], d);
  }

  /** The lists from the last to the first, each with its entries reversed. */
  function TurnedAll(ns: seq<(nat, seq<Entry>)>): (r: seq<(nat, seq<Entry>)>)
    ensures |r| == |ns|
    ensures forall i :: 0 <= i < |ns| ==> r[i] == Turned(ns[|ns| - 1 - i])
  {
    seq(|ns|, i requires 0 <= i < |ns| => Turned(ns[|ns| - 1 - i]))
  }

  lemma TurnedStrict(ns: seq<(nat, seq<Entry>)>, d: bool)
    requires Strict(ns, NameOrder(d))
    ensures Strict(TurnedAll(ns), NameOrder(!d))
  {
    var r := TurnedAll(ns);
    forall i, j | 0 <= i < j < |r| ensures NameOrder(!d)(r[i], r[j]) < 0 {
      assert NameOrder(d)(ns[|ns| - 1 - j], ns[|ns| - 1 - i]) < 0;
    }
  }

  lemma TurnedTwice(x: (nat, seq<Entry>))
    ensures Turned(Turned(x)) == x
  {
    ReversedMembers(x.1);
  }

  lemma OppositesNamed(lists1: seq<SigList>, lists2: seq<SigList>, a1: Ideal, a2: Ideal, d: bool)
    requires Opposites(lists1, lists2, a1, a2, d)
    ensures Named(lists2, |lists2|) == TurnedAll(Named(lists1, |lists1|))
  {
    hide Opposites, Inv, Ordered, Named, Strict, Turned, TurnedAll;
    OppositesSwap(lists1, lists2, a1, a2, d);
    OppositesSwap(lists2, lists1, a2, a1, !d);
    NamedStrict(lists1, a1.added, d, |lists1|);
    NamedStrict(lists2, a2.added, !d, |lists2|);
    var s, t := Named(lists1, |lists1|), Named(lists2, |lists2|);
    TurnedStrict(s, d);
    forall x ensures x in t <==> x in TurnedAll(s) {
      TurnedTwice(x);
      if x in t {
        TurnedNames(lists2, lists1, a2, a1, !d, x);
        var i :| 0 <= i < |s| && s[i] == Turned(x);
        assert TurnedAll(s)[|s| - 1 - i] == x;
      }
      if x in TurnedAll(s) {
        var i :| 0 <= i < |s| && TurnedAll(s)[i] == x;
        TurnedNames(lists1, lists2, a1, a2, d, s[|s| - 1 - i]);
      }
    }
    StrictUnique(t, TurnedAll(s), NameOrder(!d));
  }

  lemma {:induction false} EslsNamedAt(ns: seq<(nat, seq<Entry>)>, i: nat)
    requires i < |ns|
    ensures |EslsNamed(ns)| == |ns| && EslsNamed(ns)[i] == EslNamed(ns[i])
    decreases |ns|
  {
    hide EslNamed;
    var front := ns[..|ns| - 1];
    if front == [] {
      assert EslsNamed(front) == [];
    } else {
      EslsNamedAt(front, if i < |front| then i else 0);
    }
  }

  /** The same lists from the last to the first, with the entries of each from the last to the first. */
  ghost predicate Backwards(ls: seq<Esl>, rs: seq<Esl>) {
    |rs| == |ls| && forall i :: 0 <= i < |rs| ==> TurnsInto(ls[|ls| - 1 - i], rs[i])
  }

  predicate TurnsInto(l: Esl, r: Esl) {
    r.kind == l.kind && r.entries == Reversed(l.entries)
  }

  lemma TurnedEsl(x: (nat, seq<Entry>))
    ensures EslNamed(Turned(x)).kind == EslNamed(x).kind && EslNamed(Turned(x)).entries == Reversed(EslNamed(x).entries)
  {
    hide TypeGuid;
  }

  lemma TurnedAt(ns: seq<(nat, seq<Entry>)>, i: nat)
    requires i < |ns|
    ensures |EslsNamed(ns)| == |ns| == |EslsNamed(TurnedAll(ns))|
    ensures TurnsInto(EslsNamed(ns)[|ns| - 1 - i], EslsNamed(TurnedAll(ns))[i])
  {
    hide EslsNamed, EslNamed, Turned, Reversed;
    EslsNamedAt(ns, |ns| - 1 - i);
    EslsNamedAt(TurnedAll(ns), i);
    TurnedEsl(ns[|ns| - 1 - i]);
  }

  lemma TurnedNone()
    ensures EslsNamed([]) == [] && TurnedAll([]) == []
  {
    hide EslNamed, Turned;
  }

  lemma BackwardsIs(ls: seq<Esl>, rs: seq<Esl>)
    requires |rs| == |ls| && forall i :: 0 <= i < |rs| ==> TurnsInto(ls[|ls| - 1 - i], rs[i])
    ensures Backwards(ls, rs)
  {
    hide TurnsInto;
  }

  lemma TurnedEsls(ns: seq<(nat, seq<Entry>)>)
    ensures Backwards(EslsNamed(ns), EslsNamed(TurnedAll(ns)))
  {
    hide *;
    var ls, rs := EslsNamed(ns), EslsNamed(TurnedAll(ns));
    if ns == [] {
      TurnedNone();
    } else {
      TurnedAt(ns, 0);
    }
    forall i | 0 <= i < |rs| ensures TurnsInto(ls[|ls| - 1 - i], rs[i]) {
      TurnedAt(ns, i);
    }
    BackwardsIs(ls, rs);
  }

  lemma OppositeViews(lists1: seq<SigList>, lists2: seq<SigList>, a1: Ideal, a2: Ideal, d: bool)
    requires Opposites(lists1, lists2, a1, a2, d)
    ensures AllReadable(lists1) && AllReadable(lists2)
    ensures Backwards(View(lists1, |lists1|), View(lists2, |lists2|))
  {
    hide *;
    OppositesSwap(lists1, lists2, a1, a2, d);
    OppositesSwap(lists2, lists1, a2, a1, !d);
    InvReadable(lists1, a1.added);
    InvReadable(lists2, a2.added);
    OppositesNamed(lists1, lists2, a1, a2, d);
    ViewIsNamed(lists1, a1.added, |lists1|);
    ViewIsNamed(lists2, a2.added, |lists2|);
    TurnedEsls(Named(lists1, |lists1|));
  }

  /** Runs with the same map and opposite directions realise the same lists, both levels reversed. */
  lemma OppositeReversed(states1: seq<State>, ops1: seq<Op>, states2: seq<State>, ops2: seq<Op>, d: bool)
    requires SortedRun(states1, ops1, d) && SortedRun(states2, ops2, !d)
    requires MapRun(ops1).store == MapRun(ops2).store
    ensures var a, b := states1[|ops1|].lists, states2[|ops2|].lists;
      AllReadable(a) && AllReadable(b) && Backwards(View(a, |a|), View(b, |b|))
  {
    SortedRunGives(states1, ops1, d);
    SortedRunGives(states2, ops2, !d);
    hide Refines, Ordered, Allowed, Does, MapRun, View, AllReadable, Backwards;
    OppositeViews(states1[|ops1|].lists, states2[|ops2|].lists, MapRun(ops1), MapRun(ops2), d);
  }
}
