/**
  Signature files (secdb.c): parsing a buffer into the database, visiting every entry, and realising
  the database as a buffer.
 */
module SecDbFile {
  import opened Bytes
  import opened EslIter
  import opened Guids
  import opened Sorting
  import opened SecDb

  // ---------- parsing ----------

  /** One entry as the parse loop gets it; `corrected` when the list had to be shortened. */
  datatype Fetched = Fetched(first: bool, kind: Guid, owner: Guid, data: seq<byte>, corrected: bool)

  /** One turn of the loop: a plain call and, on overflow, a correcting one. */
  function Fetch(c: Cursor): (r: (Cursor, Outcome, bool)) {
    var (c1, r1) := Step(c, false);
    if r1 == Failed(true) then
      var (c2, r2) := Step(c1, true);
      (c2, r2, true)
    else (c1, r1, false)
  }

  lemma FetchMoves(c: Cursor)
    requires Moving(c)
    ensures var (c', r, _) := Fetch(c); r.Item? ==> Moving(c') && Lower(c', c)
  {
    var (c1, r1) := Step(c, false);
    StepMoves(c, false);
    hide Step, Moving;
    if r1 == Failed(true) {
      StepMoves(c1, true);
    }
  }

  /** How a parse ends. After a read past the buffer nothing more is known, not even what it returns. */
  datatype Parsing = Parsed | Refused | Overran

  function EndingOf(r: Outcome): (p: Parsing) {
    match r
    case Done => Parsed
    case PastEnd => Overran
    case _ => Refused
  }

  /** Every entry the loop sees, and how it ends. */
  function Fetches(c: Cursor): (r: (seq<Fetched>, Parsing))
    requires Moving(c)
    decreases OffsetRank(c), EntryRank(c)
  {
    var (c', r, k) := Fetch(c);
    if r.Item? then
      FetchMoves(c);
      var (rest, end) := Fetches(c');
      ([Fetched(r.first, r.kind, r.owner, r.data, k)] + rest, end)
    else ([], EndingOf(r))
  }

  /** The caller's buffer when the loop ends: corrections write the size fields of its lists. */
  function Afterwards(c: Cursor): (b: seq<byte>)
    requires Moving(c)
    decreases OffsetRank(c), EntryRank(c)
  {
    var (c', r, _) := Fetch(c);
    if r.Item? then
      FetchMoves(c);
      Afterwards(c')
    else c'.buf
  }

  lemma StepKeepsBuffer(c: Cursor)
    ensures Step(c, false).0.buf == c.buf
  {
    hide ListSize, SigSize, HeaderSize, Kind, AllZero;
  }

  lemma StepKeepsLength(c: Cursor)
    ensures |Step(c, true).0.buf| == |c.buf|
  {
    hide ListSize, SigSize, HeaderSize, Kind, AllZero;
  }

  lemma FetchKeepsLength(c: Cursor)
    ensures |Fetch(c).0.buf| == |c.buf|
  {
    StepKeepsBuffer(c);
    StepKeepsLength(Step(c, false).0);
    hide Step;
  }

  lemma {:induction false} AfterwardsLength(c: Cursor)
    requires Moving(c)
    ensures |Afterwards(c)| == |c.buf|
    decreases OffsetRank(c), EntryRank(c)
  {
    FetchKeepsLength(c);
    FetchMoves(c);
    hide Fetch, Moving;
    if Fetch(c).1.Item? {
      LowerIs(Fetch(c).0, c);
      AfterwardsLength(Fetch(c).0);
    }
  }

  /** A buffer that needs no correction is left as it is. */
  lemma {:induction false} YieldsUnchanged(c: Cursor, items: seq<Outcome>, last: Outcome)
    requires Moving(c) && (forall x :: x in items ==> x.Item?) && Yields(c, items, last)
    requires last == Done || last == PastEnd
    ensures Afterwards(c) == c.buf
    decreases |items|
  {
    hide Step, Moving;
    FetchMoves(c);
    StepKeepsBuffer(c);
    if items != [] {
      assert items[0] in items;
      YieldsUnchanged(Fetch(c).0, items[1..], last);
    }
  }

  function Plain(items: seq<Outcome>): (r: seq<Fetched>)
    requires forall x :: x in items ==> x.Item?
    ensures |r| == |items|
  {
    seq(|items|, i requires 0 <= i < |items| =>
      Fetched(items[i].first, items[i].kind, items[i].owner, items[i].data, false))
  }

  lemma {:induction false} YieldsFetches(c: Cursor, items: seq<Outcome>, last: Outcome)
    requires Moving(c) && (forall x :: x in items ==> x.Item?) && Yields(c, items, last)
    requires last == Done || last == PastEnd
    ensures Fetches(c) == (Plain(items), EndingOf(last))
    decreases |items|
  {
    hide Step, Moving;
    FetchMoves(c);
    if items != [] {
      assert items[0] in items;
      YieldsFetches(Fetch(c).0, items[1..], last);
      assert Plain(items) == [Plain(items)[0]] + Plain(items[1..]);
    }
  }

  /** A correction of the very first list never succeeds: the retry looks for a second entry of a list that
      has no first one. */
  lemma FirstNotCorrected(b: seq<byte>)
    ensures var (_, r, corrected) := Fetch(Start(b)); r.Item? ==> !corrected
  {
    var (c1, r1) := Step(Start(b), false);
    if r1 == Failed(true) {
      RetryFails(c1);
    }
    hide Step, Start;
  }

  lemma RetryFails(c: Cursor)
    requires c.i == 0 && c.nmemb == 0 && c.esd.None?
    ensures !Step(c, true).1.Item?
  {
    hide ListSize, SigSize, ListStep, Kind;
  }

  /** Whether an entry is forced into a list of its own. */
  predicate Forced(flags: Flags, f: Fetched) { f.corrected || (f.first && !flags.sort) }

  /** One entry added by the parse loop. Entries of unknown types are passed over. */
  ghost predicate AddFetched(flags: Flags, lists: seq<SigList>, f: Fetched, lists': seq<SigList>) {
    var t := TypeOf(f.kind);
    if t == -1 then lists' == lists
    else
      && !AddOver(flags, lists, t, f.data, Forced(flags, f))
      && AddPost(flags, lists, f.owner, t, f.data, Forced(flags, f), lists')
  }

  /** An entry whose addition reads past a stored one. */
  predicate Stumbles(flags: Flags, lists: seq<SigList>, f: Fetched) {
    var t := TypeOf(f.kind);
    t != -1 && AddOver(flags, lists, t, f.data, Forced(flags, f))
  }

  ghost predicate AddAll(flags: Flags, lists: seq<SigList>, fs: seq<Fetched>, lists': seq<SigList>)
    decreases |fs|
  {
    if fs == [] then lists' == lists
    else
      var front, f := fs[..|fs| - 1], fs[|fs| - 1];
      exists mid :: AddAll(flags, lists, front, mid) && AddFetched(flags, mid, f, lists')
  }

  /** All entries are added, and the lists sorted if the loop ended well. */
  ghost predicate Completes(
    flags: Flags, lists: seq<SigList>, fs: seq<Fetched>, p: Parsing, lists': seq<SigList>)
  {
    exists mid ::
      && AddAll(flags, lists, fs, mid)
      && if p == Parsed then ListsSorted(flags, mid, lists') else lists' == mid
  }

  /** The first `n` entries are added, and the next one stumbles. */
  ghost predicate StopsAt(flags: Flags, lists: seq<SigList>, fs: seq<Fetched>, n: nat, mid: seq<SigList>) {
    n < |fs| && AddAll(flags, lists, fs[..n], mid) && Stumbles(flags, mid, fs[n])
  }

  /** What efi_secdb_parse may leave behind. A refused parse keeps what it has added, unsorted; one that reads past
      the buffer or a stored entry has added that much when it does. */
  ghost predicate ParsePost(flags: Flags, lists: seq<SigList>, b: seq<byte>, p: Parsing, lists': seq<SigList>) {
    if |b| < 44 then p == Refused && lists' == lists
    else
      var (fs, end) := Fetches(Start(b));
      || (p == end && Completes(flags, lists, fs, p, lists'))
      || (p == Overran && exists n, mid :: StopsAt(flags, lists, fs, n, mid))
  }

  lemma StartMoving(b: seq<byte>)
    ensures Moving(Start(b))
  {
  }

  lemma AddAllStep(flags: Flags, lists: seq<SigList>, fs: seq<Fetched>, mid: seq<SigList>, f: Fetched, lists': seq<SigList>)
    requires AddAll(flags, lists, fs, mid) && AddFetched(flags, mid, f, lists')
    ensures AddAll(flags, lists, fs + [f], lists')
  {
    hide AddFetched;
    assert (fs + [f])[..|fs + [f]| - 1] == fs;
  }

  lemma FetchesStep(c: Cursor)
    requires Moving(c)
    ensures var (c', r, k) := Fetch(c);
      if r.Item? then
        && Moving(c') && Lower(c', c)
        && Fetches(c) == ([Fetched(r.first, r.kind, r.owner, r.data, k)] + Fetches(c').0, Fetches(c').1)
        && Afterwards(c) == Afterwards(c')
      else Fetches(c) == ([], EndingOf(r)) && Afterwards(c) == c'.buf
  {
    FetchMoves(c);
    hide Fetch, Moving;
  }

  lemma AddNone(flags: Flags, lists: seq<SigList>)
    ensures AddAll(flags, lists, [], lists)
  {
  }

  lemma FetchIs(c: Cursor)
    ensures var (c1, r1) := Step(c, false);
      Fetch(c) == if r1 == Failed(true) then (Step(c1, true).0, Step(c1, true).1, true) else (c1, r1, false)
  {
    hide Step;
  }

  method FetchNext(it: Iterator) returns (r: Outcome, corrected: bool)
    modifies it
    ensures (it.State(), r, corrected) == Fetch(old(it.State()))
  {
    FetchIs(it.State());
    hide Step, Fetch;
    corrected := false;
    r := it.Next(false);
    if r == Failed(true) {
      corrected := true;
      r := it.Next(true);
    }
  }

  method AddOne(db: Database, r: Outcome, corrected: bool, ghost lists: seq<SigList>, ghost fs: seq<Fetched>)
    returns (stumbled: bool, ghost f: Fetched)
    requires r.Item? && AddAll(db.flags, lists, fs, db.lists)
    modifies db`lists
    ensures f == Fetched(r.first, r.kind, r.owner, r.data, corrected)
    ensures stumbled == Stumbles(db.flags, old(db.lists), f)
    ensures !stumbled ==> AddAll(db.flags, lists, fs + [f], db.lists)
  {
    hide *;
    f := Fetched(r.first, r.kind, r.owner, r.data, corrected);
    ghost var mid := db.lists;
    var t := TypeOf(r.kind);
    var force := corrected || (r.first && !db.flags.sort);
    var rc;
    rc, stumbled := db.AddEntryOrList(r.owner, t, r.data, force);
    StumblesIs(db.flags, mid, f, t, force);
    if !stumbled {
      AddsFetched(db.flags, mid, f, t, force, db.lists);
      AddAllStep(db.flags, lists, fs, mid, f, db.lists);
    }
  }

  lemma StumblesIs(flags: Flags, lists: seq<SigList>, f: Fetched, t: int, force: bool)
    requires t == TypeOf(f.kind) && force == (f.corrected || (f.first && !flags.sort))
    ensures t == -1 || 0 <= t < TYPE_MAX
    ensures Stumbles(flags, lists, f) <==> 0 <= t < TYPE_MAX && AddOver(flags, lists, t, f.data, force)
  {
    hide AddOver;
  }

  /** The loop of efi_secdb_parse. */
  method AddEach(db: Database, it: Iterator) returns (p: Parsing, stumbled: bool, ghost fs: seq<Fetched>)
    requires Moving(it.State())
    modifies db`lists, it
    ensures fs == Fetches(old(it.State())).0
    ensures !stumbled ==> p == Fetches(old(it.State())).1 && it.State().buf == Afterwards(old(it.State()))
    ensures !stumbled ==> AddAll(db.flags, old(db.lists), fs, db.lists)
    ensures stumbled ==> p == Overran && exists n, mid :: StopsAt(db.flags, old(db.lists), fs, n, mid)
  {
    hide *;
    ghost var done: seq<Fetched> := [];
    fs := Fetches(it.State()).0;
    AddNone(db.flags, db.lists);
    assert done + Fetches(it.State()).0 == fs;
    while true
      invariant Moving(it.State())
      invariant fs == Fetches(old(it.State())).0 == done + Fetches(it.State()).0
      invariant Fetches(old(it.State())).1 == Fetches(it.State()).1
      invariant Afterwards(old(it.State())) == Afterwards(it.State())
      invariant AddAll(db.flags, old(db.lists), done, db.lists)
      decreases OffsetRank(it.State()), EntryRank(it.State())
    {
      ghost var c := it.State();
      FetchesStep(c);
      var r, corrected := FetchNext(it);
      if !r.Item? {
        assert done + [] == done;
        return EndingOf(r), false, fs;
      }
      ghost var mid := db.lists;
      ghost var f;
      stumbled, f := AddOne(db, r, corrected, old(db.lists), done);
      if stumbled {
        StopsBy(db.flags, old(db.lists), fs, done, f, Fetches(it.State()).0, mid);
        return Overran, true, fs;
      }
      done := done + [f];
      LowerIs(it.State(), c);
    }
  }

  lemma StopsBy(
      flags: Flags, lists: seq<SigList>, fs: seq<Fetched>, done: seq<Fetched>, f: Fetched, rest: seq<Fetched>,
      mid: seq<SigList>)
    requires fs == done + [f] + rest && AddAll(flags, lists, done, mid) && Stumbles(flags, mid, f)
    ensures StopsAt(flags, lists, fs, |done|, mid)
  {
    hide Stumbles, AddAll;
    assert fs[..|done|] == done && fs[|done|] == f;
  }

  /** What the parse leaves in the caller's buffer. */
  function LeftIn(b: seq<byte>): (b': seq<byte>)
    ensures |b'| == |b|
  {
    if |b| < 44 then b
    else
      StartMoving(b);
      AfterwardsLength(Start(b));
      Afterwards(Start(b))
  }

  /** efi_secdb_parse into an existing database. Unless it reads past something, `after` is the caller's buffer when
      it returns. */
  method Parse(db: Database, b: seq<byte>) returns (p: Parsing, after: seq<byte>)
    modifies db`lists
    ensures ParsePost(db.flags, old(db.lists), b, p, db.lists)
    ensures p != Overran ==> after == LeftIn(b)
  {
    if |b| < 44 {
      return Refused, b;
    }
    StartMoving(b);
    hide *;
    var it := new Iterator(b);
    var stumbled;
    ghost var fs;
    p, stumbled, fs := AddEach(db, it);
    after := it.buf;
    ghost var mid := db.lists;
    if !stumbled && p == Parsed && db.flags.sort {
      db.lists := QSort(db.lists, ListOrder(db.flags.descending));
    }
    if stumbled {
      StumbledPost(db.flags, old(db.lists), b, db.lists);
    } else {
      CompletesPost(db.flags, old(db.lists), b, p, mid, db.lists);
    }
  }

  lemma StumbledPost(flags: Flags, lists: seq<SigList>, b: seq<byte>, lists': seq<SigList>)
    requires |b| >= 44 && Moving(Start(b)) && exists n, mid :: StopsAt(flags, lists, Fetches(Start(b)).0, n, mid)
    ensures ParsePost(flags, lists, b, Overran, lists')
  {
    hide StopsAt, Fetches, Completes, Moving;
  }

  lemma CompletesPost(flags: Flags, lists: seq<SigList>, b: seq<byte>, p: Parsing, mid: seq<SigList>, lists': seq<SigList>)
    requires |b| >= 44 && Moving(Start(b)) && p == Fetches(Start(b)).1
    requires AddAll(flags, lists, Fetches(Start(b)).0, mid)
    requires if p == Parsed && flags.sort then SortOf(lists', mid, ListOrder(flags.descending)) else lists' == mid
    ensures ParsePost(flags, lists, b, p, lists')
  {
    hide StopsAt, Fetches, AddAll, Moving, SortOf;
    assert Completes(flags, lists, Fetches(Start(b)).0, p, lists');
  }

  /** The flags of a new database. */
  function NewFlags(): (f: Flags) { Flags(true, false, false) }

  lemma FirstForced(b: seq<byte>)
    ensures Moving(Start(b))
    ensures var fs := Fetches(Start(b)).0; fs != [] ==> !fs[0].corrected
  {
    StartMoving(b);
    FirstNotCorrected(b);
    hide Fetch, Start, Moving;
  }

  /** efi_secdb_parse when the database pointer is NULL: a new database, handed out only on success. That its
      first entry is never forced into a list of its own makes no difference. */
  method ParseNew(b: seq<byte>) returns (p: Parsing, db: Database?, after: seq<byte>)
    ensures p == Parsed <==> db != null
    ensures p == Parsed ==> fresh(db) && db.flags == NewFlags() && ParsePost(NewFlags(), [], b, Parsed, db.lists)
    ensures p != Parsed ==> exists lists :: ParsePost(NewFlags(), [], b, p, lists)
    ensures p != Overran ==> after == LeftIn(b)
  {
    hide ParsePost;
    var d := new Database();
    p, after := Parse(d, b);
    assert ParsePost(NewFlags(), [], b, p, d.lists);
    db := if p == Parsed then d else null;
  }

  lemma LowerIs(c': Cursor, c: Cursor)
    requires Lower(c', c)
    ensures OffsetRank(c') < OffsetRank(c) || (OffsetRank(c') == OffsetRank(c) && EntryRank(c') < EntryRank(c))
  {
  }

  lemma AddsFetched(flags: Flags, lists: seq<SigList>, f: Fetched, t: int, force: bool, lists': seq<SigList>)
    requires t == TypeOf(f.kind) && force == (f.corrected || (f.first && !flags.sort))
    requires !(0 <= t < TYPE_MAX) ==> lists' == lists
    requires 0 <= t < TYPE_MAX ==>
      !AddOver(flags, lists, t, f.data, force) && AddPost(flags, lists, f.owner, t, f.data, force, lists')
    ensures AddFetched(flags, lists, f, lists')
  {
    hide AddPost, AddOver, TypeFrom;
  }

  // ---------- visiting ----------

  /** One call of a visitor: the bytes stored for the entry, and how many of them it is told there are. */
  datatype Shown = Shown(listnum: nat, signum: nat, algorithm: nat, owner: Guid, data: seq<byte>, size: nat)

  /** The size without the owner, in 64 bits. */
  function ShownSize(l: SigList): (n: nat) {
    if l.sigsz >= 16 then l.sigsz - 16 else l.sigsz + TWO64 - 16
  }

  function ShowsOf(l: SigList, i: nat): (vs: seq<Shown>)
    ensures |vs| == |l.entries|
  {
    seq(|l.entries|, j requires 0 <= j < |l.entries| =>
      Shown(i, j, l.algorithm, l.entries[j].owner, l.entries[j].data, ShownSize(l)))
  }

  /** The calls of a visitor that never stops, for the first `n` lists. */
  function Shows(lists: seq<SigList>, n: nat): (vs: seq<Shown>)
    requires n <= |lists|
  {
    if n == 0 then [] else Shows(lists, n - 1) + ShowsOf(lists[n - 1], n - 1)
  }

  /** The lists before the first of unknown type, where visiting fails. */
  function Known(lists: seq<SigList>): (n: nat)
    ensures n <= |lists| && (forall i :: 0 <= i < n ==> lists[i].algorithm < TYPE_MAX)
    ensures n < |lists| ==> lists[n].algorithm >= TYPE_MAX
  {
    if lists == [] || lists[0].algorithm >= TYPE_MAX then 0 else 1 + Known(lists[1..])
  }

  datatype Status = Error | Break | Continue

  /** A visitor with its closure: what it answers after the calls made so far. */
  type Visitor = seq<Shown> -> Status

  /** The calls `vs` that a visitor gets out of `all`: up to the first one it does not continue after. */
  ghost predicate Stopped(all: seq<Shown>, visitor: Visitor, vs: seq<Shown>) {
    && vs <= all
    && (forall k :: 0 < k < |vs| ==> visitor(vs[..k]) == Continue)
    && (vs == all || (vs != [] && visitor(vs) != Continue))
  }

  /** What efi_secdb_visit_entries returns: an error of the visitor, or of a list of unknown type it comes to. */
  function VisitResult(visitor: Visitor, vs: seq<Shown>, known: bool): (rc: int) {
    if vs != [] && visitor(vs) == Error then -1
    else if vs != [] && visitor(vs) == Break then 0
    else if known then 0 else -1
  }

  lemma {:induction false} ShowsPrefix(lists: seq<SigList>, i: nat, n: nat)
    requires i <= n <= |lists|
    ensures Shows(lists, i) <= Shows(lists, n)
    decreases n - i
  {
    hide ShowsOf;
    if i < n {
      ShowsPrefix(lists, i, n - 1);
    }
  }

  lemma {:induction false} ShowsNext(lists: seq<SigList>, i: nat, j: nat, n: nat, vs: seq<Shown>)
    requires i < n <= |lists| && j < |lists[i].entries|
    requires vs == Shows(lists, i) + ShowsOf(lists[i], i)[..j]
    ensures var l := lists[i];
      var vs' := vs + [Shown(i, j, l.algorithm, l.entries[j].owner, l.entries[j].data, ShownSize(l))];
      vs' == Shows(lists, i) + ShowsOf(l, i)[..j + 1] && vs' <= Shows(lists, n)
  {
    hide ShownSize;
    var v := ShowsOf(lists[i], i);
    ShowsPrefix(lists, i + 1, n);
    assert v[..j + 1] == v[..j] + [v[j]];
    assert Shows(lists, i + 1) == Shows(lists, i) + v;
  }

  /** efi_secdb_visit_entries with any visitor, on any database. */
  method Visit(db: Database, visitor: Visitor) returns (rc: int, vs: seq<Shown>)
    ensures var n := Known(db.lists);
      Stopped(Shows(db.lists, n), visitor, vs) && rc == VisitResult(visitor, vs, n == |db.lists|)
  {
    hide ShowsOf, Shows, ShownSize, Known;
    vs := [];
    var lists := db.lists;
    ghost var n := Known(lists);
    ShowsStart(lists);
    for i := 0 to |lists|
      invariant i <= n && vs == Shows(lists, i) && vs <= Shows(lists, n)
      invariant forall k :: 0 < k <= |vs| ==> visitor(vs[..k]) == Continue
    {
      var l := lists[i];
      assert vs[..|vs|] == vs;
      if l.algorithm >= TYPE_MAX {
        assert i == n;
        return -1, vs;
      }
      for j := 0 to |l.entries|
        invariant vs == Shows(lists, i) + ShowsOf(l, i)[..j] && vs <= Shows(lists, n)
        invariant forall k :: 0 < k <= |vs| ==> visitor(vs[..k]) == Continue
      {
        ShowsNext(lists, i, j, n, vs);
        ghost var was := vs;
        vs := vs + [Shown(i, j, l.algorithm, l.entries[j].owner, l.entries[j].data, ShownSize(l))];
        assert forall k :: 0 < k <= |was| ==> vs[..k] == was[..k];
        assert vs[..|vs|] == vs;
        var status := visitor(vs);
        if status != Continue {
          return if status == Error then -1 else 0, vs;
        }
      }
      ShowsWhole(lists, i, n);
    }
    rc := 0;
    assert vs[..|vs|] == vs;
  }

  lemma ShowsStart(lists: seq<SigList>)
    ensures Shows(lists, 0) == []
  {
  }

  lemma ShowsWhole(lists: seq<SigList>, i: nat, n: nat)
    requires i < n <= |lists|
    ensures Shows(lists, i + 1) == Shows(lists, i) + ShowsOf(lists[i], i)[..|lists[i].entries|]
    ensures Shows(lists, i + 1) <= Shows(lists, n)
  {
    ShowsPrefix(lists, i + 1, n);
    var v := ShowsOf(lists[i], i);
    assert v[..|v|] == v;
  }

  // ---------- what a visitor may read ----------

  /** A list whose entries all hold the bytes its size announces. */
  predicate Readable(l: SigList) {
    l.algorithm < TYPE_MAX && forall e :: e in l.entries ==> 16 <= l.sigsz <= 16 + |e.data|
  }

  predicate AllReadable(lists: seq<SigList>) {
    forall i :: 0 <= i < |lists| ==> Readable(lists[i])
  }

  /** The bytes of an entry that a visitor is shown. */
  function Seen(l: SigList, j: nat): (e: Entry)
    requires Readable(l) && j < |l.entries|
    ensures |e.data| + 16 == l.sigsz
  {
    assert l.entries[j] in l.entries;
    Entry(l.entries[j].owner, l.entries[j].data[..l.sigsz - 16])
  }

  function SeenAll(l: SigList): (es: seq<Entry>)
    requires Readable(l)
    ensures |es| == |l.entries|
    ensures forall j :: 0 <= j < |es| ==> es[j] == Seen(l, j)
  {
    seq(|l.entries|, j requires 0 <= j < |l.entries| => Seen(l, j))
  }

  datatype Visited = Visited(listnum: nat, signum: nat, algorithm: nat, entry: Entry)

  function VisitsOf(l: SigList, i: nat): (vs: seq<Visited>)
    requires Readable(l)
    ensures |vs| == |l.entries|
  {
    seq(|l.entries|, j requires 0 <= j < |l.entries| => Visited(i, j, l.algorithm, Seen(l, j)))
  }

  /** What the visitor of readable lists is shown, for the first `n` lists. */
  function Visits(lists: seq<SigList>, n: nat): (vs: seq<Visited>)
    requires n <= |lists| && AllReadable(lists)
  {
    if n == 0 then [] else Visits(lists, n - 1) + VisitsOf(lists[n - 1], n - 1)
  }

  /** The entry a call shows, when the stored bytes reach as far as it says. */
  predicate ShowsEntry(x: Shown, v: Visited) {
    && x.listnum == v.listnum && x.signum == v.signum && x.algorithm == v.algorithm
    && x.size <= |x.data| && v.entry == Entry(x.owner, x.data[..x.size])
  }

  /** On readable lists every call shows its entry, and nothing of it lies behind the stored bytes. */
  lemma {:induction false} ShowsVisits(lists: seq<SigList>, n: nat)
    requires n <= |lists| && AllReadable(lists)
    ensures |Shows(lists, n)| == |Visits(lists, n)|
    ensures forall v :: 0 <= v < |Visits(lists, n)| ==> ShowsEntry(Shows(lists, n)[v], Visits(lists, n)[v])
    decreases n
  {
    hide Readable, ShowsEntry, ShowsOf, VisitsOf;
    if n > 0 {
      ShowsVisits(lists, n - 1);
      var l, c := lists[n - 1], |Visits(lists, n - 1)|;
      forall v | c <= v < |Visits(lists, n)| ensures ShowsEntry(Shows(lists, n)[v], Visits(lists, n)[v]) {
        ShowsVisitsOf(l, n - 1, v - c);
      }
    }
  }

  lemma ShowsVisitsOf(l: SigList, i: nat, j: nat)
    requires Readable(l) && j < |l.entries|
    ensures ShowsEntry(ShowsOf(l, i)[j], VisitsOf(l, i)[j])
  {
    assert l.entries[j] in l.entries;
  }

  // ---------- realising ----------

  function EslOf(l: SigList): (e: Esl)
    requires Readable(l)
  {
    Esl(TypeGuid(l.algorithm), SeenAll(l))
  }

  /** The lists that reach the file: those with at least one entry. */
  function View(lists: seq<SigList>, n: nat): (es: seq<Esl>)
    requires n <= |lists| && AllReadable(lists)
    ensures forall e :: e in es ==> WellFormed(e)
  {
    if n == 0 then []
    else if lists[n - 1].entries == [] then View(lists, n - 1)
    else
      SeenWellFormed(lists[n - 1]);
      View(lists, n - 1) + [EslOf(lists[n - 1])]
  }

  lemma SeenWellFormed(l: SigList)
    requires Readable(l) && l.entries != []
    ensures WellFormed(EslOf(l)) && Size(EslOf(l)) == l.sigsz
  {
    var es := SeenAll(l);
    forall e | e in es ensures |e.data| == |es[0].data| {
      var j :| 0 <= j < |es| && es[j] == e;
      assert es[0] == Seen(l, 0);
    }
  }

  /** The realised file. */
  function Realized(lists: seq<SigList>): (b: seq<byte>)
    requires AllReadable(lists)
  {
    Layout(View(lists, |lists|))
  }

  /** The closure of secdb_realize_visitor. The page of zeros behind `buf` is not part of it. */
  class VisitorState {
    var listnum: nat
    var esl: nat
    var buf: seq<byte>

    constructor ()
      ensures listnum == 0 && esl == 0 && buf == []
    {
      listnum, esl, buf := 0, 0, [];
    }

    /** secdb_realize_visitor: a new header on a new list or on entry zero, then the entry, then the
        list size patched in place. */
    method Visit(v: Visited)
      requires v.algorithm < TYPE_MAX
      requires v.listnum > listnum || v.signum == 0 || esl + 28 <= |buf|
      modifies this
      ensures var at := if v.listnum > old(listnum) || v.signum == 0 then |old(buf)| else old(esl);
              var b := if v.listnum > old(listnum) || v.signum == 0
                       then old(buf) + Head(TypeGuid(v.algorithm), 0, |v.entry.data| + 16) else old(buf);
        && esl == at && listnum == v.listnum && at + 28 <= |b|
        && buf == Patch(b, at + 16, Put(Word(b, at + 16) + |v.entry.data| + 16, 4)) + v.entry.owner + v.entry.data
    {
      hide Head, Patch, Word, TypeGuid;
      var size := |v.entry.data| + 16;
      if v.listnum > listnum || v.signum == 0 {
        esl := |buf|;
        buf := buf + Head(TypeGuid(v.algorithm), 0, size);
      }
      buf := Patch(buf, esl + 16, Put(Word(buf, esl + 16) + size, 4)) + v.entry.owner + v.entry.data;
      listnum := v.listnum;
    }
  }

  lemma {:induction false} SignaturesSnoc(es: seq<Entry>, e: Entry)
    ensures Signatures(es + [e]) == Signatures(es) + e.owner + e.data
  {
    if es == [] {
      assert Signatures([e]) == e.owner + e.data + Signatures([e][1..]);
      assert es + [e] == [e];
    } else {
      calc {
        Signatures(es + [e]);
        { assert (es + [e])[1..] == es[1..] + [e]; }
        es[0].owner + es[0].data + Signatures(es[1..] + [e]);
        { SignaturesSnoc(es[1..], e); }
        es[0].owner + es[0].data + (Signatures(es[1..]) + e.owner + e.data);
        Signatures(es) + e.owner + e.data;
      }
    }
  }

  lemma {:induction false} LayoutSnoc(ls: seq<Esl>, l: Esl)
    requires WellFormed(l) && forall x :: x in ls ==> WellFormed(x)
    ensures forall x :: x in ls + [l] ==> WellFormed(x)
    ensures Layout(ls + [l]) == Layout(ls) + EslBytes(l)
  {
    hide EslBytes, WellFormed;
    if ls == [] {
      assert ls + [l] == [l] && [l][1..] == [];
    } else {
      calc {
        Layout(ls + [l]);
        { assert (ls + [l])[1..] == ls[1..] + [l]; }
        EslBytes(ls[0]) + Layout(ls[1..] + [l]);
        { LayoutSnoc(ls[1..], l); }
        EslBytes(ls[0]) + (Layout(ls[1..]) + EslBytes(l));
        Layout(ls) + EslBytes(l);
      }
    }
  }

  /** Patching the size field of a header that counts `n` entries makes it count `n + 1`. */
  lemma HeadCounts(front: seq<byte>, kind: Guid, n: nat, size: nat, tail: seq<byte>)
    ensures var b := front + Head(kind, n, size) + tail;
      Patch(b, |front| + 16, Put(Word(b, |front| + 16) + size, 4)) == front + Head(kind, n + 1, size) + tail
  {
    hide *;
    var total := 28 + n * size;
    HeadWord(front, kind, n, size, tail);
    PutModulo(total, size);
    Total(n, size);
    HeadIs(kind, n, size);
    HeadIs(kind, n + 1, size);
    PatchHead(front, kind, Put(total, 4), Put(total + size, 4), Put(0, 4) + Put(size, 4), tail);
  }

  lemma HeadIs(kind: Guid, n: nat, size: nat)
    ensures Head(kind, n, size) == kind + (Put(28 + n * size, 4) + (Put(0, 4) + Put(size, 4)))
  {
  }

  lemma Total(n: nat, size: nat)
    ensures 28 + n * size + size == 28 + (n + 1) * size
  {
  }

  lemma HeadWord(front: seq<byte>, kind: Guid, n: nat, size: nat, tail: seq<byte>)
    ensures Word(front + Head(kind, n, size) + tail, |front| + 16) == U32(28 + n * size)
  {
    var b := front + Head(kind, n, size) + tail;
    assert b[|front| + 16..|front| + 20] == Put(28 + n * size, 4) by {
      hide Put;
    }
    Field32(28 + n * size);
  }

  lemma PatchHead(front: seq<byte>, kind: Guid, x: seq<byte>, y: seq<byte>, z: seq<byte>, tail: seq<byte>)
    requires |x| == |y| == 4
    ensures Patch(front + (kind + (x + z)) + tail, |front| + 16, y) == front + (kind + (y + z)) + tail
  {
  }

  lemma PutModulo(n: int, k: int)
    ensures Put(U32(n) + k, 4) == Put(n + k, 4)
  {
    var q := n / TWO32;
    PutCarry(U32(n) + k, q, 4);
    Widths();
    hide Put, Pow256;
    assert U32(n) + k + TWO32 * q == n + k;
  }

  lemma {:induction false} PutCarry(n: int, q: int, width: nat)
    ensures Put(n + Pow256(width) * q, width) == Put(n, width)
    decreases width
  {
    if width > 0 {
      var p := Pow256(width - 1) * q;
      assert Pow256(width) * q == 256 * p by {
        Regrouped(Pow256(width - 1), q);
      }
      Carry(n, p);
      PutCarry(n / 256, q, width - 1);
      hide Put, Pow256;
    }
  }

  lemma Regrouped(x: int, q: int)
    ensures (256 * x) * q == 256 * (x * q)
  {
  }

  lemma Carry(n: int, p: int)
    ensures (n + 256 * p) % 256 == n % 256 && (n + 256 * p) / 256 == n / 256 + p
  {
  }

  /** The bytes in the buffer while list `i` is being visited, after `j` of its entries. */
  function Partial(lists: seq<SigList>, i: nat, j: nat): (b: seq<byte>)
    requires i < |lists| && AllReadable(lists) && j <= |lists[i].entries|
  {
    Layout(View(lists, i))
    + Head(TypeGuid(lists[i].algorithm), j, lists[i].sigsz)
    + Signatures(SeenAll(lists[i])[..j])
  }

  lemma PartialStart(lists: seq<SigList>, i: nat)
    requires i < |lists| && AllReadable(lists)
    ensures Partial(lists, i, 0)
         == Layout(View(lists, i)) + Head(TypeGuid(lists[i].algorithm), 0, lists[i].sigsz)
  {
    hide View, Layout, Head;
    assert SeenAll(lists[i])[..0] == [];
  }

  lemma PartialNext(lists: seq<SigList>, i: nat, j: nat)
    requires i < |lists| && AllReadable(lists) && j < |lists[i].entries|
    ensures var o, b, e := |Layout(View(lists, i))|, Partial(lists, i, j), Seen(lists[i], j);
      && o + 28 <= |b|
      && Patch(b, o + 16, Put(Word(b, o + 16) + |e.data| + 16, 4)) + e.owner + e.data == Partial(lists, i, j + 1)
  {
    hide *;
    PartialShape(lists, i, j);
    PartialShape(lists, i, j + 1);
    var l, front := lists[i], Layout(View(lists, i));
    var kind, tail, e := TypeGuid(l.algorithm), Signatures(SeenAll(l)[..j]), Seen(l, j);
    HeadCounts(front, kind, j, l.sigsz, tail);
    assert SeenAll(l)[..j + 1] == SeenAll(l)[..j] + [e];
    SignaturesSnoc(SeenAll(l)[..j], e);
    Regroup(front + Head(kind, j + 1, l.sigsz), tail, e.owner, e.data);
  }

  lemma PartialShape(lists: seq<SigList>, i: nat, j: nat)
    requires i < |lists| && AllReadable(lists) && j <= |lists[i].entries|
    ensures Readable(lists[i])
    ensures Partial(lists, i, j) == Layout(View(lists, i))
      + Head(TypeGuid(lists[i].algorithm), j, lists[i].sigsz) + Signatures(SeenAll(lists[i])[..j])
    ensures lists[i].algorithm < TYPE_MAX
  {
    hide View, Layout, Head, Signatures, SeenAll, TypeGuid;
  }

  lemma Regroup(a: seq<byte>, b: seq<byte>, c: seq<byte>, d: seq<byte>)
    ensures a + b + c + d == a + (b + c + d)
  {
  }

  lemma PartialEnd(lists: seq<SigList>, i: nat)
    requires i < |lists| && AllReadable(lists) && lists[i].entries != []
    ensures Partial(lists, i, |lists[i].entries|) == Layout(View(lists, i + 1))
  {
    hide *;
    var l := lists[i];
    PartialShape(lists, i, |l.entries|);
    ViewNext(lists, i);
    LayoutSnoc(View(lists, i), EslOf(l));
    EslBytesOf(l);
    assert SeenAll(l)[..|l.entries|] == SeenAll(l);
    Associative(Layout(View(lists, i)), Head(TypeGuid(l.algorithm), |l.entries|, l.sigsz), Signatures(SeenAll(l)));
  }

  lemma ViewNext(lists: seq<SigList>, i: nat)
    requires i < |lists| && AllReadable(lists)
    ensures Readable(lists[i])
    ensures lists[i].entries == [] ==> View(lists, i + 1) == View(lists, i)
    ensures lists[i].entries != [] ==>
      WellFormed(EslOf(lists[i])) && View(lists, i + 1) == View(lists, i) + [EslOf(lists[i])]
  {
    hide EslOf;
    if lists[i].entries != [] {
      SeenWellFormed(lists[i]);
    }
  }

  lemma EslBytesOf(l: SigList)
    requires Readable(l) && WellFormed(EslOf(l))
    ensures EslBytes(EslOf(l)) == Head(TypeGuid(l.algorithm), |l.entries|, l.sigsz) + Signatures(SeenAll(l))
  {
    hide Head, Signatures, TypeGuid;
    SeenWellFormed(l);
  }

  /** The visits of one list; false when the copy of an entry reads past the bytes stored for it. */
  method RealizeList(s: VisitorState, l: SigList, i: nat, ghost known: seq<SigList>) returns (ok: bool)
    requires l.algorithm < TYPE_MAX && i < |known| && known[i] == l
    requires AllReadable(known) ==> s.buf == Layout(View(known, i))
    modifies s
    ensures ok == Readable(l)
    ensures ok && AllReadable(known) ==> s.buf == Layout(View(known, i + 1))
  {
    hide *;
    for j := 0 to |l.entries|
      invariant forall k :: 0 <= k < j ==> Full(l, k)
      invariant j > 0 ==> s.esl + 28 <= |s.buf| && s.listnum == i
      invariant AllReadable(known) ==> s.buf == if j == 0 then Layout(View(known, i)) else Partial(known, i, j)
      invariant AllReadable(known) && j > 0 ==> s.esl == |Layout(View(known, i))|
    {
      var e, size := l.entries[j], ShownSize(l);
      // a size below 16 wraps past any object
      if l.sigsz < 16 || size > |e.data| {
        NotReadable(l, j);
        return false;
      }
      FullBy(l, j);
      if AllReadable(known) {
        PartialVisited(known, i, j);
      }
      s.Visit(Visited(i, j, l.algorithm, Entry(e.owner, e.data[..size])));
    }
    ReadableBy(l);
    if AllReadable(known) {
      ViewNext(known, i);
      if |l.entries| > 0 {
        PartialEnd(known, i);
      }
    }
    return true;
  }

  /** What the visitor makes of the buffer. */
  lemma PartialVisited(lists: seq<SigList>, i: nat, j: nat)
    requires i < |lists| && AllReadable(lists) && j < |lists[i].entries|
    ensures var l := lists[i];
      var e, size, front := l.entries[j], ShownSize(l), Layout(View(lists, i));
      && l.algorithm < TYPE_MAX && size <= |e.data|
      && var b := if j == 0 then front + Head(TypeGuid(l.algorithm), 0, size + 16) else Partial(lists, i, j);
      && |front| + 28 <= |b|
      && Patch(b, |front| + 16, Put(Word(b, |front| + 16) + size + 16, 4)) + e.owner + e.data[..size]
         == Partial(lists, i, j + 1)
  {
    hide *;
    PartialStart(lists, i);
    PartialShape(lists, i, j);
    PartialNext(lists, i, j);
    SeenIs(lists, i, j);
  }

  /** efi_secdb_realize, on any database: the lists before the first of unknown type, or None when the copy of an
      entry reads past the bytes stored for it. */
  method Realize(db: Database) returns (out: Option<seq<byte>>)
    ensures var lists := db.lists[..Known(db.lists)];
      out == if AllReadable(lists) then Some(Realized(lists)) else None
  {
    hide *;
    out := RealizeLists(db.lists, db.lists[..Known(db.lists)]);
  }

  method RealizeLists(lists: seq<SigList>, ghost known: seq<SigList>) returns (out: Option<seq<byte>>)
    requires |known| <= |lists| && forall i :: 0 <= i < |known| ==> known[i] == lists[i] && known[i].algorithm < TYPE_MAX
    requires |known| < |lists| ==> lists[|known|].algorithm >= TYPE_MAX
    ensures out == if AllReadable(known) then Some(Realized(known)) else None
  {
    hide *;
    var s := new VisitorState();
    if AllReadable(known) {
      ViewNone(known);
    }
    for i := 0 to |lists|
      invariant fresh(s) && i <= |known|
      invariant forall k :: 0 <= k < i ==> Readable(known[k])
      invariant AllReadable(known) ==> s.buf == Layout(View(known, i))
    {
      if lists[i].algorithm >= TYPE_MAX {
        break;
      }
      var ok := RealizeList(s, lists[i], i, known);
      if !ok {
        OneUnreadable(known, i);
        return None;
      }
    }
    AllReadableBy(known);
    RealizedIs(known);
    return Some(s.buf);
  }

  lemma AllReadableBy(lists: seq<SigList>)
    requires forall k :: 0 <= k < |lists| ==> Readable(lists[k])
    ensures AllReadable(lists)
  {
  }

  lemma OneUnreadable(lists: seq<SigList>, i: nat)
    requires i < |lists| && !Readable(lists[i])
    ensures !AllReadable(lists)
  {
  }

  predicate Full(l: SigList, k: nat)
    requires k < |l.entries|
  {
    16 <= l.sigsz <= 16 + |l.entries[k].data|
  }

  lemma FullBy(l: SigList, k: nat)
    requires k < |l.entries| && 16 <= l.sigsz && ShownSize(l) <= |l.entries[k].data|
    ensures Full(l, k)
  {
  }

  lemma ReadableBy(l: SigList)
    requires l.algorithm < TYPE_MAX && forall k :: 0 <= k < |l.entries| ==> Full(l, k)
    ensures Readable(l)
  {
    forall e | e in l.entries ensures 16 <= l.sigsz <= 16 + |e.data| {
      var k :| 0 <= k < |l.entries| && l.entries[k] == e;
      assert Full(l, k);
    }
  }

  lemma NotReadable(l: SigList, j: nat)
    requires j < |l.entries| && (l.sigsz < 16 || ShownSize(l) > |l.entries[j].data|)
    ensures !Readable(l)
  {
    assert l.entries[j] in l.entries;
  }

  lemma SeenIs(lists: seq<SigList>, i: nat, j: nat)
    requires i < |lists| && AllReadable(lists) && j < |lists[i].entries|
    ensures var l := lists[i]; var e := l.entries[j];
      && Readable(l) && ShownSize(l) + 16 == l.sigsz && ShownSize(l) <= |e.data|
      && Seen(l, j) == Entry(e.owner, e.data[..ShownSize(l)])
  {
    assert lists[i].entries[j] in lists[i].entries;
  }

  lemma ViewNone(lists: seq<SigList>)
    requires AllReadable(lists)
    ensures View(lists, 0) == [] && Layout(View(lists, 0)) == []
  {
  }

  /** Readable lists are all of known type. */
  lemma {:induction false} AllKnown(lists: seq<SigList>)
    requires AllReadable(lists)
    ensures Known(lists) == |lists| && lists[..Known(lists)] == lists
  {
    assert forall i :: 0 <= i < |lists| ==> Readable(lists[i]) && lists[i].algorithm < TYPE_MAX;
  }

  lemma RealizedIs(lists: seq<SigList>)
    requires AllReadable(lists)
    ensures Realized(lists) == Layout(View(lists, |lists|))
  {
  }
}
