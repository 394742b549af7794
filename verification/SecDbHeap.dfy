/**
  The signature database as it lies in memory: a ring of lists, each with a ring of entries (secdb.h, list.h). Its
  operations have the contracts of those on sequences, so that whatever holds of the one holds of the other.
 */
module SecDbHeap {
  import opened Bytes
  import opened EslIter
  import opened Guids
  import opened Sorting
  import opened SecDb
  import Runs = SecDbRuns
  import SecDbCanonical
  import R = Ring

  /** What the structures around some links hold (container_of). */
  function Payloads<T>(nodes: seq<R.ListNode>, cells: map<R.ListNode, T>): (r: seq<T>)
    requires forall n :: n in nodes ==> n in cells
    ensures |r| == |nodes| && forall i :: 0 <= i < |nodes| ==> r[i] == cells[nodes[i]]
  {
    seq(|nodes|, i requires 0 <= i < |nodes| => cells[nodes[i]])
  }

  lemma PayloadsPermuted<T>(s: seq<R.ListNode>, t: seq<R.ListNode>, cells: map<R.ListNode, T>)
    requires multiset(s) == multiset(t) && (forall n :: n in s ==> n in cells) && forall n :: n in t ==> n in cells
    ensures multiset(Payloads(s, cells)) == multiset(Payloads(t, cells))
    decreases |s|
  {
    SameMembers(s, t);
    if s == [] {
      assert t == [] && Payloads(s, cells) == [] == Payloads(t, cells);
    } else {
      var u, v := SplitOut(s, t);
      PayloadsPermuted(s[1..], u + v, cells);
      assert Payloads(s, cells) == [cells[s[0]]] + Payloads(s[1..], cells);
      assert Payloads(t, cells) == Payloads(u, cells) + [cells[s[0]]] + Payloads(v, cells);
      assert Payloads(u + v, cells) == Payloads(u, cells) + Payloads(v, cells);
      TakeOut(Payloads(u, cells), cells[s[0]], Payloads(v, cells));
    }
  }

  /** A comparator of links that looks at what they hold. */
  function ByPayload<T>(cells: map<R.ListNode, T>, cmp: (T, T) -> int): (f: (R.ListNode, R.ListNode) -> int) {
    (a, b) => if a in cells && b in cells then cmp(cells[a], cells[b]) else 0
  }

  /** Sorting the links sorts what they hold. */
  lemma PayloadsSorted<T>(t: seq<R.ListNode>, s: seq<R.ListNode>, cells: map<R.ListNode, T>, cmp: (T, T) -> int)
    requires SortOf(t, s, ByPayload(cells, cmp)) && forall n :: n in s ==> n in cells
    ensures forall n :: n in t <==> n in s
    ensures SortOf(Payloads(t, cells), Payloads(s, cells), cmp)
  {
    var byNode := ByPayload(cells, cmp);
    SameMembers(t, s);
    PayloadsPermuted(t, s, cells);
    if Consistent(Payloads(s, cells), cmp) {
      forall n | n in s ensures cells[n] in Payloads(s, cells) {
        var i :| 0 <= i < |s| && s[i] == n;
        assert Payloads(s, cells)[i] == cells[n];
      }
      assert Consistent(s, byNode);
    }
  }

  /** What happens to the entries of one list. */
  datatype Change =
    | Appending(e: Entry)
    | Sorting(sz: nat, descending: bool)
    | Deleting(owner: Guid, data: seq<byte>, n: nat)

  ghost predicate Changed(c: Change, es: seq<Entry>, es': seq<Entry>, overread: bool) {
    match c
    case Appending(e) => !overread && es' == es + [e]
    case Sorting(sz, d) => !overread && SortOf(es', es, EntryOrder(sz, d))
    case Deleting(owner, data, n) =>
      && overread == DelOverreads(es, 0, owner, data, n)
      && es' == if overread then es else Without(es, FirstMatch(es, 0, owner, data, n))
  }

  /** The entries of one list: links from the head, and the entry around each. */
  class EntryRing {
    const head: R.ListNode
    var cells: map<R.ListNode, Entry>
    ghost var nodes: seq<R.ListNode>
    ghost var Repr: set<object>

    ghost predicate Valid()
      reads this, Repr
    {
      && this in Repr && head in Repr && (forall n :: n in nodes ==> n in Repr && n in cells)
      && R.IsRing([head] + nodes)
    }

    ghost function Entries(): (es: seq<Entry>)
      requires forall n :: n in nodes ==> n in cells
      reads this
    {
      Payloads(nodes, cells)
    }

    constructor ()
      ensures Valid() && fresh(Repr) && nodes == [] && Entries() == []
    {
      head := new R.ListNode();
      cells := map[];
      nodes := [];
      new;
      R.InitHead(head);
      Repr := {this, head};
      assert [head] + nodes == [head];
    }

    /** list_add_tail of a new entry. */
    method Append(e: Entry)
      requires Valid()
      modifies Repr
      ensures Valid() && old(Repr) <= Repr && fresh(Repr - old(Repr)) && Entries() == old(Entries()) + [e]
    {
      var x := new R.ListNode();
      R.AddTail(x, head, [head] + nodes);
      cells := cells[x := e];
      nodes := nodes + [x];
      Repr := Repr + {x};
      assert [head] + nodes == [head] + old(nodes) + [x];
    }

    /** The loop of efi_secdb_add_entry_or_secdb over the entries. */
    method HasDuplicate(data: seq<byte>) returns (found: bool, overread: bool)
      requires Valid()
      ensures overread == AddOverreads(Entries(), 0, data)
      ensures !overread ==> (found <==> exists i :: 0 <= i < |Entries()| && SameData(data, Entries()[i], |data|))
    {
      hide Overreads, SameData;
      ghost var s, es := [head] + nodes, Entries();
      ghost var i := 0;
      R.RingLinks(s, 0);
      var pos := head.next;
      while pos != head
        invariant 0 <= i <= |nodes| && pos == R.Successor(s, i)
        invariant AddOverreads(es, 0, data) == AddOverreads(es, i, data)
        invariant forall j :: 0 <= j < i ==> !SameData(data, es[j], |data|)
        decreases |nodes| - i
      {
        assert i < |nodes| && pos == nodes[i];
        var e := cells[pos];
        if Overreads(data, e, |data|) {
          return false, true;
        }
        if SameData(data, e, |data|) {
          return true, false;
        }
        i := i + 1;
        R.RingLinks(s, i);
        pos := pos.next;
      }
      AtHead(s, i);
      return false, false;
    }

    /** The loop of efi_secdb_del_entry over the entries: the link of the first match. */
    method Search(owner: Guid, data: seq<byte>, n: nat) returns (found: R.ListNode?, overread: bool, ghost i: nat)
      requires Valid()
      ensures overread == DelOverreads(Entries(), 0, owner, data, n)
      ensures !overread ==> i == FirstMatch(Entries(), 0, owner, data, n)
      ensures !overread ==> if i < |nodes| then found == nodes[i] else found == null
    {
      hide Overreads, SameData;
      ghost var s, es := [head] + nodes, Entries();
      i := 0;
      R.RingLinks(s, 0);
      var pos := head.next;
      while pos != head
        invariant 0 <= i <= |nodes| && pos == R.Successor(s, i)
        invariant FirstMatch(es, 0, owner, data, n) == FirstMatch(es, i, owner, data, n)
        invariant DelOverreads(es, 0, owner, data, n) == DelOverreads(es, i, owner, data, n)
        decreases |nodes| - i
      {
        assert i < |nodes| && pos == nodes[i];
        var e := cells[pos];
        if Overreads(data, e, n) {
          return null, true, i;
        }
        if SameData(data, e, n) && owner == e.owner {
          return pos, false, i;
        }
        i := i + 1;
        R.RingLinks(s, i);
        pos := pos.next;
      }
      AtHead(s, i);
      return null, false, i;
    }

    /** That loop and its list_del. */
    method Delete(owner: Guid, data: seq<byte>, n: nat) returns (overread: bool)
      requires Valid()
      modifies Repr
      ensures Valid() && Repr == old(Repr)
      ensures overread == DelOverreads(old(Entries()), 0, owner, data, n)
      ensures overread ==> Entries() == old(Entries())
      ensures !overread ==> Entries() == Without(old(Entries()), FirstMatch(old(Entries()), 0, owner, data, n))
    {
      hide DelOverreads, FirstMatch, R.IsRing, R.Removed, Payloads, Without;
      var found;
      ghost var i;
      found, overread, i := Search(owner, data, n);
      if overread {
        return;
      }
      NodesWithout(head, nodes, i, cells);
      if found == null {
        return;
      }
      R.Del(found, [head] + nodes, i + 1);
      nodes := NodesLeft(nodes, i);
    }

    /** list_sort. */
    method Sort(sz: nat, descending: bool)
      requires Valid()
      modifies Repr
      ensures Valid() && Repr == old(Repr)
      ensures SortOf(Entries(), old(Entries()), EntryOrder(sz, descending))
    {
      hide SortOf, EntryOrder, ByPayload, R.IsRing, Payloads;
      ghost var s := [head] + nodes;
      assert s[1..] == nodes && forall n :: n in s ==> n in Repr;
      ghost var t := R.Sort(head, ByPayload(cells, EntryOrder(sz, descending)), s);
      PayloadsSorted(t, nodes, cells, EntryOrder(sz, descending));
      nodes := t;
    }

    method Apply(c: Change) returns (overread: bool)
      requires Valid()
      modifies Repr
      ensures Valid() && old(Repr) <= Repr && fresh(Repr - old(Repr)) && Changed(c, old(Entries()), Entries(), overread)
    {
      hide R.IsRing, Payloads, SortOf, EntryOrder, DelOverreads, FirstMatch, Without;
      overread := false;
      match c {
        case Appending(e) => Append(e);
        case Sorting(sz, d) => Sort(sz, d);
        case Deleting(owner, data, n) => overread := Delete(owner, data, n);
      }
    }
  }

  /** What is left of a ring without its node `i`. */
  function NodesLeft(nodes: seq<R.ListNode>, i: nat): (r: seq<R.ListNode>) {
    if i < |nodes| then nodes[..i] + nodes[i + 1..] else nodes
  }

  lemma LeftMembers(nodes: seq<R.ListNode>, i: nat)
    ensures forall n :: n in NodesLeft(nodes, i) ==> n in nodes
  {
  }

  lemma LeftRing(head: R.ListNode, nodes: seq<R.ListNode>, i: nat)
    requires i < |nodes|
    ensures [head] + NodesLeft(nodes, i) == R.Removed([head] + nodes, i + 1)
  {
    var s := [head] + nodes;
    assert s[..i + 1] == [head] + nodes[..i] && s[i + 2..] == nodes[i + 1..];
    Associative([head], nodes[..i], nodes[i + 1..]);
  }

  lemma LeftPayloads(nodes: seq<R.ListNode>, i: nat, cells: map<R.ListNode, Entry>)
    requires i < |nodes| && forall n :: n in nodes ==> n in cells
    ensures (forall n :: n in NodesLeft(nodes, i) ==> n in cells)
    ensures Payloads(NodesLeft(nodes, i), cells) == Without(Payloads(nodes, cells), i)
  {
    LeftMembers(nodes, i);
    var r, es := NodesLeft(nodes, i), Payloads(nodes, cells);
    assert forall j :: 0 <= j < |r| ==> r[j] == nodes[if j < i then j else j + 1];
    assert forall j :: 0 <= j < |r| ==> Without(es, i)[j] == es[if j < i then j else j + 1];
  }

  lemma NodesWithout(head: R.ListNode, nodes: seq<R.ListNode>, i: nat, cells: map<R.ListNode, Entry>)
    requires i <= |nodes| && forall n :: n in nodes ==> n in cells
    ensures forall n :: n in NodesLeft(nodes, i) ==> n in nodes
    ensures Payloads(NodesLeft(nodes, i), cells) == Without(Payloads(nodes, cells), i)
    ensures i < |nodes| ==> [head] + NodesLeft(nodes, i) == R.Removed([head] + nodes, i + 1)
    ensures i == |nodes| ==> Without(Payloads(nodes, cells), i) == Payloads(nodes, cells)
  {
    LeftMembers(nodes, i);
    if i < |nodes| {
      hide NodesLeft, Payloads, Without, R.Removed;
      LeftRing(head, nodes, i);
      LeftPayloads(nodes, i, cells);
    }
  }

  lemma AtHead(s: seq<R.ListNode>, i: nat)
    requires s != [] && R.Distinct(s) && i < |s| && R.Successor(s, i) == s[0]
    ensures i == |s| - 1
  {
  }

  /** The fields of an efi_secdb besides its links and its entries. */
  datatype Fields = Fields(algorithm: nat, sigsz: nat, nsigs: nat, listsz: nat, flags: Flags)

  function FieldsOf(l: SigList): (f: Fields) { Fields(l.algorithm, l.sigsz, l.nsigs, l.listsz, l.flags) }

  function ListWith(f: Fields, es: seq<Entry>): (l: SigList) {
    SigList(f.algorithm, f.sigsz, f.nsigs, f.listsz, f.flags, es)
  }

  /** The database: links from the head, and around each the fields and the ring of entries of a list. */
  class HeapDatabase {
    var flags: Flags
    const head: R.ListNode
    var fields: map<R.ListNode, Fields>
    var rings: map<R.ListNode, EntryRing>
    ghost var nodes: seq<R.ListNode>
    ghost var Repr: set<object>

    /** The ring of entries of a list is there, and belongs to the database. */
    ghost predicate Owned(n: R.ListNode)
      reads this, Repr
    {
      && n in Repr && n in fields && n in rings && rings[n] in Repr
      && rings[n].Repr <= Repr && this !in rings[n].Repr && head !in rings[n].Repr && rings[n].Valid()
    }

    /** No ring of entries shares a node with the links or with another one. */
    ghost predicate Separate(n: R.ListNode, m: R.ListNode)
      requires Owned(n) && Owned(m)
      reads this, Repr
    {
      m !in rings[n].Repr && (n != m ==> rings[n].Repr !! rings[m].Repr)
    }

    /** Everything is there once. */
    ghost predicate Body()
      reads this, Repr
    {
      && this in Repr && head in Repr && (forall n :: n in nodes ==> n in Repr)
      && (forall n :: n in nodes ==> Owned(n))
      && (forall n, m :: n in nodes && m in nodes ==> Separate(n, m))
    }

    ghost predicate Valid()
      reads this, Repr
    {
      Body() && R.IsRing([head] + nodes)
    }

    ghost function Value(n: R.ListNode): (l: SigList)
      requires Owned(n)
      reads this, Repr
    {
      ListWith(fields[n], rings[n].Entries())
    }

    /** The lists as a sequence. */
    ghost function Lists(): (ls: seq<SigList>)
      requires Valid()
      reads this, Repr
      ensures |ls| == |nodes| && forall i :: 0 <= i < |nodes| ==> ls[i] == Value(nodes[i])
    {
      seq(|nodes|, i requires 0 <= i < |nodes| && Valid() reads this, Repr => Value(nodes[i]))
    }

    constructor ()
      ensures Valid() && fresh(Repr) && Lists() == [] && flags == Flags(true, false, false)
    {
      flags := Flags(true, false, false);
      head := new R.ListNode();
      fields, rings := map[], map[];
      nodes := [];
      new;
      R.InitHead(head);
      Repr := {this, head};
      assert [head] + nodes == [head];
    }

    /** find_secdb_entry: from the last list to the first. */
    method Search(alg: nat, datasz: nat) returns (found: R.ListNode?, ghost k: nat)
      requires Valid() && alg < TYPE_MAX
      ensures match Find(Lists(), alg, datasz)
        case None => found == null
        case Some(j) => j < |nodes| && found == nodes[j]
      ensures Find(Lists(), alg, datasz).Some? ==> k == Find(Lists(), alg, datasz).value
    {
      var want := datasz + 16;
      if alg != X509_CERT {
        want := EntrySize(alg);
      }
      Members();
      FindStarts(Lists(), alg, datasz);
      hide Find, FindFrom;
      found, k := WalkBack(head, fields, nodes, Lists(), alg, want);
    }

    /** The links of a new list. */
    method Link(x: R.ListNode)
      requires Valid() && x !in Repr
      modifies x, head, nodes
      ensures Body() && R.IsRing([head] + nodes + [x])
      ensures forall n :: n in nodes ==> Owned(n) && Value(n) == old(Value(n))
    {
      ghost var s := [head] + nodes;
      assert s[|s| - 1] == head || s[|s| - 1] in nodes;
      hide R.IsRing, Payloads;
      R.AddTail(x, head, s);
    }

    /** Its fields and its ring of entries. */
    method Enter(x: R.ListNode, ring: EntryRing, f: Fields)
      requires Body() && R.IsRing([head] + nodes + [x]) && x !in Repr && x !in nodes
      requires ring.Valid() && ring.Repr !! Repr && x !in ring.Repr && ring.nodes == []
      modifies this
      ensures Valid() && Repr == old(Repr) + {x} + ring.Repr && nodes == old(nodes) + [x] && flags == old(flags)
      ensures forall n :: n in old(nodes) ==> n in nodes && old(Owned(n)) && Owned(n) && Value(n) == old(Value(n))
      ensures Owned(x) && Value(x) == ListWith(f, [])
    {
      hide R.IsRing, Payloads;
      fields := fields[x := f];
      rings := rings[x := ring];
      nodes := nodes + [x];
      Repr := Repr + {x} + ring.Repr;
      assert [head] + nodes == [head] + old(nodes) + [x];
      forall n | n in old(nodes) ensures old(Owned(n)) && Owned(n) && Value(n) == old(Value(n)) {
        assert old(Owned(n)) && n != x && rings[n].Valid();
      }
      assert Owned(x) && Value(x) == ListWith(f, []) by {
        NoPayloads(ring);
      }
      forall n, m | n in nodes && m in nodes ensures Separate(n, m) {
        if n != x && m != x {
          assert old(Separate(n, m));
        }
      }
    }

    /** alloc_secdb_entry: a new list, last in the ring. */
    method NewCell(alg: nat, sigsz: nat) returns (x: R.ListNode)
      requires Valid()
      modifies Repr
      ensures Valid() && fresh(Repr - old(Repr)) && flags == old(flags)
      ensures nodes == old(nodes) + [x] && Lists() == old(Lists()) + [NewList(flags, alg, sigsz)]
    {
      hide R.IsRing, Payloads;
      ghost var ls := Lists();
      x := new R.ListNode();
      var ring := new EntryRing();
      Link(x);
      Enter(x, ring, Fields(alg, U32(sigsz), 0, 0, flags));
      forall i | 0 <= i < |nodes| ensures Lists()[i] == (ls + [NewList(flags, alg, sigsz)])[i] {
        assert Lists()[i] == Value(nodes[i]);
      }
    }

    lemma Apart(i: nat, j: nat)
      requires Valid() && i < |nodes| && j < |nodes|
      ensures nodes[i] == nodes[j] <==> i == j
    {
      var s := [head] + nodes;
      assert s[i + 1] == nodes[i] && s[j + 1] == nodes[j];
    }

    method SetFields(n: R.ListNode, f: Fields, ghost k: nat)
      requires Valid() && k < |nodes| && nodes[k] == n
      modifies this`fields
      ensures Valid() && Lists() == old(Lists())[k := ListWith(f, old(Lists())[k].entries)]
    {
      hide R.IsRing, Payloads;
      ghost var ls := Lists();
      forall i | 0 <= i < |nodes| ensures nodes[i] == nodes[k] <==> i == k {
        Apart(i, k);
      }
      fields := fields[n := f];
      assert forall m :: m in nodes ==> Owned(m);
      forall i | 0 <= i < |nodes| ensures Lists()[i] == ls[k := ListWith(f, ls[k].entries)][i] {
        assert Lists()[i] == Value(nodes[i]);
      }
    }

    /** A change of the entries of list `k`; the other lists and all links stay as they are. */
    method ChangeEntries(n: R.ListNode, c: Change, ghost k: nat) returns (overread: bool, ghost es: seq<Entry>)
      requires Valid() && k < |nodes| && nodes[k] == n
      modifies Repr
      ensures Valid() && fresh(Repr - old(Repr)) && nodes == old(nodes) && flags == old(flags) && fields == old(fields)
      ensures Changed(c, old(Lists())[k].entries, es, overread)
      ensures Lists() == old(Lists())[k := old(Lists())[k].(entries := es)]
    {
      hide R.IsRing, Payloads, Changed;
      ghost var ls, links := Lists(), [head] + nodes;
      assert Owned(n);
      var ring := rings[n];
      forall x | x in links ensures x in Repr && x !in ring.Repr {
        if x in nodes {
          assert Separate(n, x);
        }
      }
      overread := ring.Apply(c);
      es := ring.Entries();
      Repr := Repr + ring.Repr;
      assert R.IsRing(links);
      forall m | m in nodes && m != n
        ensures Owned(m) && Value(m) == old(Value(m)) && rings[m].Repr == old(rings[m].Repr) {
        assert old(Owned(m)) && old(Separate(n, m));
        assert unchanged(rings[m]);
        assert rings[m].Valid();
      }
      assert Owned(n);
      forall a, b | a in nodes && b in nodes ensures Separate(a, b) {
        assert old(Separate(a, b));
      }
      OneChanged(ls, k, es);
    }

    /** The sequence of lists when only that at `k` has other entries. */
    lemma OneChanged(ls: seq<SigList>, k: nat, es: seq<Entry>)
      requires Valid() && k < |nodes| && |ls| == |nodes| && Owned(nodes[k]) && rings[nodes[k]].Entries() == es
      requires fields[nodes[k]] == FieldsOf(ls[k])
      requires forall i :: 0 <= i < |nodes| && nodes[i] != nodes[k] ==> Owned(nodes[i]) && Value(nodes[i]) == ls[i]
      ensures Lists() == ls[k := ls[k].(entries := es)]
    {
      hide R.IsRing, Payloads;
      forall i | 0 <= i < |nodes| ensures Lists()[i] == ls[k := ls[k].(entries := es)][i] {
        Apart(i, k);
        assert Owned(nodes[i]) && Lists()[i] == Value(nodes[i]);
      }
    }

    /** list_sort of the links. */
    method SortLinks(byNode: (R.ListNode, R.ListNode) -> int) returns (ghost t: seq<R.ListNode>)
      requires Valid()
      modifies head, nodes
      ensures Body() && R.IsRing([head] + t) && SortOf(t, nodes, byNode)
      ensures forall n :: n in nodes ==> Owned(n) && Value(n) == old(Value(n))
    {
      hide R.IsRing, Payloads, SortOf;
      ghost var s := [head] + nodes;
      assert s[1..] == nodes;
      forall x, n | x in s && n in nodes ensures Owned(n) && x !in rings[n].Repr {
        if x in nodes {
          assert Separate(n, x);
        }
      }
      t := R.Sort(head, byNode, s);
      forall n | n in nodes ensures Owned(n) && Value(n) == old(Value(n)) {
        assert old(Owned(n)) && rings[n].Repr == old(rings[n].Repr);
        assert forall x :: x in rings[n].Repr ==> x !in s;
        assert unchanged(rings[n]);
        assert rings[n].Valid();
      }
    }

    ghost method Reorder(t: seq<R.ListNode>)
      requires Body() && R.IsRing([head] + t) && forall n :: n in t <==> n in nodes
      modifies this`nodes
      ensures Valid() && nodes == t
      ensures forall n :: n in nodes ==> n in old(nodes) && Owned(n) && Value(n) == old(Value(n))
    {
      hide R.IsRing, Payloads;
      nodes := t;
    }

    /** list_sort by the fields, given what the links stand for. */
    method SortByFields(descending: bool, ghost values: map<R.ListNode, SigList>) returns (ghost t: seq<R.ListNode>)
      requires Valid() && forall n :: n in nodes ==> n in values && values[n] == Value(n)
      modifies head, nodes
      ensures Body() && R.IsRing([head] + t) && (forall n :: n in t <==> n in nodes)
      ensures forall n :: n in nodes ==> Owned(n) && Value(n) == values[n]
      ensures SortOf(Payloads(t, values), Payloads(nodes, values), ListOrder(descending))
    {
      hide R.IsRing, SortOf, ListOrder, ByPayload, Payloads;
      var heads := map n | n in fields :: ListWith(fields[n], []);
      assert forall n :: n in nodes ==> n in heads && heads[n] == values[n].(entries := []) by {
        assert forall n :: n in nodes ==> Owned(n);
      }
      t := SortLinks(ByPayload(heads, ListOrder(descending)));
      SameOrder(t, nodes, heads, values, ListOrder(descending), descending);
      PayloadsSorted(t, nodes, values, ListOrder(descending));
    }

    /** list_sort of the lists. */
    method SortLists(descending: bool)
      requires Valid()
      modifies Repr
      ensures Valid() && Repr == old(Repr) && flags == old(flags)
      ensures SortOf(Lists(), old(Lists()), ListOrder(descending))
    {
      hide R.IsRing, SortOf, ListOrder, Payloads;
      ghost var values := Values();
      ghost var t := SortByFields(descending, values);
      Reorder(t);
      ListsAre(values);
    }

    /** What the links stand for. */
    ghost function Values(): (m: map<R.ListNode, SigList>)
      requires Valid()
      reads this, Repr
      ensures forall n :: n in nodes ==> n in m && Owned(n) && m[n] == Value(n)
      ensures Payloads(nodes, m) == Lists()
    {
      map n | n in nodes :: Value(n)
    }

    lemma ListsAre(values: map<R.ListNode, SigList>)
      requires Valid() && forall n :: n in nodes ==> n in values && Owned(n) && values[n] == Value(n)
      ensures Payloads(nodes, values) == Lists()
    {
      PayloadsAre(nodes, values, Lists());
    }

    /** find_or_alloc_secdb_entry, or a forced allocation. */
    method SelectList(alg: nat, sigsz: nat, force: bool) returns (n: R.ListNode, ghost k: nat)
      requires Valid() && alg < TYPE_MAX
      modifies Repr
      ensures Valid() && fresh(Repr - old(Repr)) && flags == old(flags)
      ensures k < |nodes| && nodes[k] == n && (Lists(), k) == Select(flags, old(Lists()), alg, sigsz, force)
    {
      hide R.IsRing, Payloads, Find;
      k := |nodes|;
      if force {
        n := NewCell(alg, sigsz);
        return;
      }
      var found;
      ghost var j;
      found, j := Search(alg, sigsz);
      if found == null {
        n := NewCell(alg, GivenSize(alg, sigsz));
        return;
      }
      n, k := found, j;
      Members();
      SetFields(n, fields[n].(algorithm := alg, sigsz := GivenSize(alg, sigsz)), k);
    }

    /** secdb_add_entry_data. */
    method AddEntryData(n: R.ListNode, owner: Guid, data: seq<byte>, ghost k: nat)
      requires Valid() && k < |nodes| && nodes[k] == n
      modifies Repr
      ensures Valid() && fresh(Repr - old(Repr)) && nodes == old(nodes) && flags == old(flags)
      ensures Lists() == old(Lists())[k := Appended(old(Lists())[k], owner, data)]
    {
      hide R.IsRing, Payloads, U32;
      ghost var ls := Lists();
      Members();
      if data == [] {
        assert ls[k := ls[k]] == ls;
        return;
      }
      var _, es := ChangeEntries(n, Appending(Entry(owner, data)), k);
      var f := fields[n];
      var count := f.nsigs + 1;
      var sz := f.sigsz;
      if count == 1 && f.algorithm == X509_CERT && f.sigsz == 16 {
        sz := U32(sz + |data|);
      }
      SetFields(n, f.(nsigs := count, sigsz := sz, listsz := U32(28 + sz * count)), k);
    }

    /** The sorting at the end of an addition. */
    method SortAfter(n: R.ListNode, sz: nat, ghost k: nat) returns (ghost es: seq<Entry>)
      requires Valid() && k < |nodes| && nodes[k] == n
      modifies Repr
      ensures Valid() && fresh(Repr - old(Repr)) && flags == old(flags)
      ensures EntriesSorted(old(Lists())[k], sz, es)
      ensures ListsSorted(old(Lists())[k].flags, old(Lists())[k := old(Lists())[k].(entries := es)], Lists())
    {
      hide R.IsRing, Payloads, SortOf, EntryOrder, ListOrder;
      ghost var ls := Lists();
      Members();
      var f := fields[n];
      es := ls[k].entries;
      assert ls[k := ls[k].(entries := es)] == ls;
      if f.flags.sortData && f.sigsz != 0 {
        var over;
        over, es := ChangeEntries(n, Sorting(sz, f.flags.descending), k);
      }
      if f.flags.sort {
        SortLists(f.flags.descending);
      }
    }

    method AddAndSort(n: R.ListNode, owner: Guid, data: seq<byte>, ghost k: nat) returns (ghost es: seq<Entry>)
      requires Valid() && k < |nodes| && nodes[k] == n
      modifies Repr
      ensures Valid() && fresh(Repr - old(Repr)) && flags == old(flags)
      ensures EntriesSorted(Appended(old(Lists())[k], owner, data), |data|, es)
      ensures ListsSorted(old(Lists())[k].flags, Extended(old(Lists()), k, owner, data, es), Lists())
    {
      hide *;
      ghost var ls := Lists();
      AddEntryData(n, owner, data, k);
      ghost var l' := Appended(ls[k], owner, data);
      AppendedFlags(ls[k], owner, data);
      es := SortAfter(n, |data|, k);
      ExtendedIs(ls, k, owner, data, es);
      assert ls[k := l'][k := l'.(entries := es)] == ls[k := l'.(entries := es)];
    }

    /** The search for a duplicate in list `k`. */
    method HasDuplicate(n: R.ListNode, data: seq<byte>, ghost k: nat) returns (found: bool, overread: bool)
      requires Valid() && k < |nodes| && nodes[k] == n
      ensures overread == AddOverreads(Lists()[k].entries, 0, data)
      ensures !overread ==> (found <==> Duplicate(Lists()[k], data))
    {
      hide R.IsRing, Payloads, AddOverreads, SameData;
      Members();
      found, overread := rings[n].HasDuplicate(data);
    }

    /** An addition of a known type. */
    method AddKnown(owner: Guid, alg: nat, data: seq<byte>, force: bool) returns (overread: bool)
      requires Valid() && alg < TYPE_MAX
      modifies Repr
      ensures Valid() && fresh(Repr - old(Repr)) && flags == old(flags)
      ensures overread == AddOver(flags, old(Lists()), alg, data, force)
      ensures overread ==> Lists() == Select(flags, old(Lists()), alg, |data| + 16, force).0
      ensures !overread ==> AddPost(flags, old(Lists()), owner, alg, data, force, Lists())
    {
      hide *;
      ghost var was := Lists();
      var n;
      ghost var k;
      n, k := SelectList(alg, |data| + 16, force);
      ghost var ls, es := Lists(), [];
      AddOverIs(flags, was, alg, data, force);
      var found;
      found, overread := HasDuplicate(n, data, k);
      if overread {
        return;
      }
      if !found {
        es := AddAndSort(n, owner, data, k);
      }
      AddLeaves(flags, was, owner, alg, data, force, ls, k, es, Lists());
    }

    /** efi_secdb_add_entry_or_secdb. */
    method AddEntryOrList(owner: Guid, alg: int, data: seq<byte>, force: bool) returns (rc: int, overread: bool)
      requires Valid()
      modifies Repr
      ensures Valid() && fresh(Repr - old(Repr)) && flags == old(flags)
      ensures !(0 <= alg < TYPE_MAX) ==> rc == -1 && !overread && Lists() == old(Lists())
      ensures 0 <= alg < TYPE_MAX ==> overread == AddOver(flags, old(Lists()), alg, data, force)
      ensures 0 <= alg < TYPE_MAX && overread ==> Lists() == Select(flags, old(Lists()), alg, |data| + 16, force).0
      ensures 0 <= alg < TYPE_MAX && !overread ==>
        rc == 0 && AddPost(flags, old(Lists()), owner, alg, data, force, Lists())
    {
      if !(0 <= alg < TYPE_MAX) {
        return -1, false;
      }
      hide *;
      overread := AddKnown(owner, alg, data, force);
      rc := 0;
    }

    /** efi_secdb_del_entry. */
    method DelEntry(owner: Guid, alg: int, data: seq<byte>) returns (rc: int, overread: bool)
      requires Valid()
      modifies Repr
      ensures Valid() && fresh(Repr - old(Repr)) && flags == old(flags)
      ensures overread <==> 0 <= alg < TYPE_MAX && data != [] && DelOver(old(Lists()), owner, alg, data)
      ensures overread ==> Lists() == old(Lists())
      ensures !overread ==> (rc == 0 <==> 0 <= alg < TYPE_MAX && data != [] && Find(old(Lists()), alg, |data|).Some?)
      ensures !overread ==>
        Lists() == if 0 <= alg < TYPE_MAX && data != [] then DelPost(old(Lists()), owner, alg, data) else old(Lists())
    {
      if !(0 <= alg < TYPE_MAX) || data == [] {
        return -1, false;
      }
      hide R.IsRing, Payloads, Find, DelOverreads, FirstMatch, Without, ComparedSize;
      var found;
      ghost var k;
      found, k := Search(alg, |data|);
      if found == null {
        return -1, false;
      }
      ghost var es;
      overread, es := ChangeEntries(found, Deleting(owner, data, ComparedSize(alg, |data|)), k);
      return 0, overread;
    }

    method SetFlags(f: Flags)
      requires Valid()
      modifies this`flags
      ensures Valid() && Lists() == old(Lists()) && flags == f
    {
      hide R.IsRing, Payloads;
      ghost var values := Values();
      flags := f;
      forall n | n in nodes ensures Owned(n) && Value(n) == values[n] {
        assert old(Owned(n)) && rings[n].Valid();
      }
      forall a, b | a in nodes && b in nodes ensures Separate(a, b) {
        assert old(Separate(a, b));
      }
      assert Body();
      ListsAre(values);
    }

    method SetBool(flag: int, value: bool) returns (rc: int)
      requires Valid()
      modifies this`flags
      ensures Valid() && Lists() == old(Lists()) && rc == if 0 <= flag <= 2 then 0 else -1
      ensures flags == Runs.SetFlag(old(flags), flag, value)
    {
      hide R.IsRing, Payloads;
      if flag < 0 || flag > 2 {
        return -1;
      }
      if flag == 0 {
        SetFlags(flags.(sort := value));
      } else if flag == 1 {
        SetFlags(flags.(sortData := value));
      } else {
        SetFlags(flags.(descending := value));
      }
      return 0;
    }

    /** An operation in memory is a step of a run. */
    method Apply(op: Runs.Op) returns (overran: bool)
      requires Valid() && Runs.Allowed(op) && !op.ParseOp?
      modifies Repr
      ensures Valid() && fresh(Repr - old(Repr))
      ensures overran ==> Runs.CanOverrun(old(Runs.State(flags, Lists())), op)
      ensures !overran ==> Runs.Does(old(Runs.State(flags, Lists())), op, Runs.State(flags, Lists()))
    {
      Runs.AllowedSize(op);
      hide R.IsRing, Payloads, AddPost, DelPost, AddOver, DelOver, Find, Select, Runs.RightSize;
      overran := false;
      match op {
        case AddOp(owner, alg, data) =>
          var rc;
          rc, overran := AddEntryOrList(owner, alg, data, false);
        case DelOp(owner, alg, data) =>
          var rc;
          rc, overran := DelEntry(owner, alg, data);
        case FlagOp(flag, value) => var _ := SetBool(flag, value);
      }
    }

    lemma Members()
      requires Valid()
      ensures forall i :: 0 <= i < |nodes| ==> Owned(nodes[i]) && nodes[i] != head
    {
      var s := [head] + nodes;
      forall i | 0 <= i < |nodes| ensures Owned(nodes[i]) && nodes[i] != head {
        assert nodes[i] in nodes && s[i + 1] == nodes[i] && s[0] == head;
      }
    }
  }

  lemma NoPayloads(ring: EntryRing)
    requires ring.nodes == []
    ensures ring.Entries() == []
  {
  }

  lemma PayloadsAre<T>(nodes: seq<R.ListNode>, cells: map<R.ListNode, T>, ls: seq<T>)
    requires |ls| == |nodes| && forall i :: 0 <= i < |nodes| ==> nodes[i] in cells && ls[i] == cells[nodes[i]]
    ensures (forall n :: n in nodes ==> n in cells) && Payloads(nodes, cells) == ls
  {
  }

  /** The comparator of lists does not look at their entries. */
  lemma SameOrder(
      t: seq<R.ListNode>, nodes: seq<R.ListNode>, heads: map<R.ListNode, SigList>, values: map<R.ListNode, SigList>,
      cmp: (SigList, SigList) -> int, descending: bool)
    requires cmp == ListOrder(descending) && SortOf(t, nodes, ByPayload(heads, cmp))
    requires forall n :: n in nodes ==> n in heads && n in values && heads[n] == values[n].(entries := [])
    ensures SortOf(t, nodes, ByPayload(values, cmp))
  {
    var f, g := ByPayload(heads, cmp), ByPayload(values, cmp);
    SameMembers(t, nodes);
    forall a, b | a in nodes && b in nodes ensures f(a, b) == g(a, b) {
      EntriesIgnored(values[a], values[b], descending);
    }
    hide ListOrder, ByPayload;
    if Consistent(nodes, g) {
      assert Consistent(nodes, f);
    }
  }

  lemma EntriesIgnored(a: SigList, b: SigList, descending: bool)
    ensures ListOrder(descending)(a.(entries := []), b.(entries := [])) == ListOrder(descending)(a, b)
  {
  }

  /** The loop of find_secdb_entry over a ring of links. */
  method WalkBack(
    head: R.ListNode, fields: map<R.ListNode, Fields>, ghost nodes: seq<R.ListNode>, ghost ls: seq<SigList>, alg: nat,
    want: nat) returns (found: R.ListNode?, ghost k: nat)
    requires R.IsRing([head] + nodes) && |ls| == |nodes|
    requires forall i :: 0 <= i < |nodes| ==>
      nodes[i] != head && nodes[i] in fields && ls[i] == ListWith(fields[nodes[i]], ls[i].entries)
    ensures match FindFrom(ls, |ls|, alg, want)
      case None => found == null
      case Some(j) => j < |nodes| && found == nodes[j]
    ensures FindFrom(ls, |ls|, alg, want).Some? ==> k == FindFrom(ls, |ls|, alg, want).value
  {
    ghost var s := [head] + nodes;
    k := |nodes|;
    R.RingLinks(s, 0);
    var pos := head.prev;
    assert s[k] == pos;
    hide FindFrom, Matches, R.IsRing;
    while pos != head
      invariant 0 <= k <= |nodes| && pos == s[k]
      invariant FindFrom(ls, |ls|, alg, want) == FindFrom(ls, k, alg, want)
      decreases k
    {
      FindSteps(ls, k, alg, want);
      var f := fields[pos];
      if f.listsz == 0 || f.algorithm == TYPE_MAX || (f.algorithm == alg && f.sigsz == want) {
        return pos, k - 1;
      }
      R.RingLinks(s, k);
      pos := pos.prev;
      k := k - 1;
    }
    FindSteps(ls, k, alg, want);
    return null, 0;
  }

  lemma FindStarts(ls: seq<SigList>, alg: nat, datasz: nat)
    requires alg < TYPE_MAX
    ensures Find(ls, alg, datasz) == FindFrom(ls, |ls|, alg, if alg == X509_CERT then datasz + 16 else EntrySize(alg))
  {
  }

  lemma FindSteps(ls: seq<SigList>, k: nat, alg: nat, want: nat)
    requires k <= |ls|
    ensures k == 0 ==> FindFrom(ls, k, alg, want) == None
    ensures k > 0 ==>
      var l := ls[k - 1];
      FindFrom(ls, k, alg, want) ==
        if l.listsz == 0 || l.algorithm == TYPE_MAX || (l.algorithm == alg && l.sigsz == want) then Some(k - 1)
        else FindFrom(ls, k - 1, alg, want)
  {
  }

  /** A run in memory: whatever additions, deletions and flag changes are made, below the two bounds nothing reads past
      anything, and the rings represent the map. */
  method RunInMemory(ops: seq<Runs.Op>) returns (db: HeapDatabase)
    requires (forall op :: op in ops ==> Runs.Allowed(op) && !op.ParseOp?) && Runs.Unwrapped(Runs.MapRun(ops).added)
    ensures fresh(db) && db.Valid() && Runs.Refines(db.Lists(), Runs.MapRun(ops))
  {
    hide *;
    db := new HeapDatabase();
    ghost var states := [Runs.State(db.flags, db.Lists())];
    SecDbCanonical.RunsNone(states[0]);
    assert ops[..0] == [];
    var n := 0;
    while n < |ops|
      invariant n <= |ops| && (forall op :: op in ops[..n] ==> Runs.Allowed(op)) && db.Valid() && fresh(db) && fresh(db.Repr)
      invariant |states| == n + 1 && Runs.Runs(states, ops[..n]) && states[n] == Runs.State(db.flags, db.Lists())
    {
      assert ops[n] in ops;
      SecDbCanonical.PrefixOverruns(states, ops, n);
      var overran := db.Apply(ops[n]);
      NoParse(ops[n]);
      ghost var s := Runs.State(db.flags, db.Lists());
      SecDbCanonical.RunsSnoc(states, ops[..n], s, ops[n]);
      assert ops[..n + 1] == ops[..n] + [ops[n]];
      states := states + [s];
      n := n + 1;
    }
    assert ops[..n] == ops;
    Runs.RunRefines(states, ops);
  }

  lemma NoParse(op: Runs.Op)
    requires Runs.Allowed(op) && !op.ParseOp?
    ensures !Runs.Overruns(op)
  {
  }
}
