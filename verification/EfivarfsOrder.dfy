/**
  The calls of the efivarfs protocol by what stands before each of them: a protected file is made mutable before
  it is opened for writing or written, the write goes where it should, and the call fails only if it had a reason to.
 */
module EfivarfsOrder {
  import opened Bytes
  import opened Efivarfs

  // ---------- what must stand before a call ----------

  predicate Protected(e: Event) { e.r.Got? && e.r.flags.immutable }

  /** The flags of the inode have been asked for; if its immutable bit was set, it has been cleared since. */
  ghost predicate Prepared(t: seq<Event>, id: Id) {
    exists g :: 0 <= g < |t| && t[g].q == GetFlags(id) && (Protected(t[g]) ==> Cleared(t, g, id))
  }

  ghost predicate Cleared(t: seq<Event>, g: nat, id: Id)
    requires g < |t| && Protected(t[g])
  {
    exists s :: g < s < |t| && t[s].q == SetFlags(id, t[g].r.flags.(immutable := false))
  }

  /** Some flags with the immutable bit were read, and differ from `f` in that bit only. */
  ghost predicate WasProtected(t: seq<Event>, id: Id, f: Flags) {
    exists g :: 0 <= g < |t| && t[g].q == GetFlags(id) && Protected(t[g]) && t[g].r.flags.(immutable := false) == f
  }

  ghost predicate WasCleared(t: seq<Event>, id: Id, f: Flags) {
    exists g, s :: 0 <= g < s < |t| && t[g] == Event(GetFlags(id), Got(f)) && t[s] == Event(SetFlags(id, f.(immutable := false)), Done)
  }

  ghost predicate CreatedAs(t: seq<Event>, id: Id) {
    exists c :: 0 <= c < |t| && t[c].q.OpenWrite? && t[c].q.create && t[c].r == Fd(id)
  }

  /** The inode opened for reading was opened for writing, and both reported one number. */
  ghost predicate Compared(t: seq<Event>, id: Id) {
    && (exists o :: 0 <= o < |t| && t[o].q.OpenWrite? && !t[o].q.create && t[o].r == Fd(id))
    && (exists i, j :: 0 <= i < j < |t| && t[i].q == t[j].q == Fstat(id) && t[i].r == t[j].r && t[i].r.Stat?)
  }

  /** What has happened when a call is made. */
  ghost predicate Behind(a: Args, t: seq<Event>, q: Request) {
    && (q.OpenRead? <==> t == [])
    && (t != [] ==> t[0].q == OpenRead && (t[0].r == Fail || t[0].r.Fd?))
    && match q
       case OpenWrite(create, append) =>
         && t != [] && (create <==> t[0].r == Fail) && (append <==> Append(a))
         && (forall e :: e in t ==> !e.q.OpenWrite?)
         && (t[0].r.Fd? ==> Prepared(t, t[0].r.id))
       case Write(fd, _, append) =>
         && t != [] && (append <==> Append(a)) && Prepared(t, fd)
         && (if t[0].r.Fd? then fd == t[0].r.id && Compared(t, fd) else CreatedAs(t, fd))
       case GetFlags(fd) =>
         && t != [] && (t[0].r == Fd(fd) || CreatedAs(t, fd))
         && forall e :: e in t ==> !e.q.GetFlags?
       case SetFlags(fd, f) => if f.immutable then WasCleared(t, fd, f) else WasProtected(t, fd, f)
       case Unlink =>
         && t != [] && t[0].r == Fail && (exists id :: CreatedAs(t, id))
         && forall e :: e in t && e.q.Write? ==> e.r == Fail
       case _ => true
  }

  /** Something kept the call from writing: a failure, or two inodes. */
  ghost predicate Trouble(t: seq<Event>) {
    || (exists e :: e in t && e.r == Fail && (e.q.Fstat? || e.q.OpenWrite? || e.q.Write?))
    || (exists e, f :: e in t && f in t && e.q.Fstat? && f.q.Fstat? && e.r.Stat? && f.r.Stat? && e.r != f.r)
  }

  ghost predicate Unlinked(t: seq<Event>) {
    exists e :: e in t && e.q.Unlink?
  }

  // ---------- what the local variables say of the calls so far ----------

  /** The third call asked for the flags of the inode, and the fourth cleared its immutable bit if that was set. */
  predicate Flagged(t: seq<Event>, fd: Id) {
    && |t| >= 3 && t[2].q == GetFlags(fd)
    && (Protected(t[2]) ==> |t| >= 4 && t[3].q == SetFlags(fd, t[2].r.flags.(immutable := false)))
  }

  /** How many calls that took. */
  function Past(t: seq<Event>): (n: nat)
    requires |t| >= 3
  {
    if Protected(t[2]) then 4 else 3
  }

  predicate ReadFirst(l: Local, t: seq<Event>) {
    && l.rfd.Some? && |t| >= 2 && t[0] == Event(OpenRead, Fd(l.rfd.value))
    && t[1] == Event(Fstat(l.rfd.value), Stat(l.rnum))
  }

  predicate CreatedFirst(a: Args, l: Local, t: seq<Event>) {
    && l.rfd.None? && l.wfd.Some? && |t| >= 2 && t[0] == Event(OpenRead, Fail)
    && t[1] == Event(OpenWrite(true, Append(a)), Fd(l.wfd.value))
  }

  predicate AskedProtected(l: Local, fd: Id, t: seq<Event>) {
    |t| == 3 && t[2] == Event(GetFlags(fd), Got(l.orig)) && l.orig.immutable
  }

  predicate OpenedToo(a: Args, l: Local, t: seq<Event>) {
    && ReadFirst(l, t) && l.wfd.Some? && Flagged(t, l.rfd.value) && |t| > Past(t)
    && t[Past(t)] == Event(OpenWrite(false, Append(a)), Fd(l.wfd.value))
  }

  predicate RestoreKnown(l: Local, t: seq<Event>) {
    l.restore.Some? ==>
      && |t| >= 4 && l.orig.immutable && t[2] == Event(GetFlags(l.restore.value), Got(l.orig))
      && t[3] == Event(SetFlags(l.restore.value, l.orig.(immutable := false)), Done)
  }

  /** The calls up to the write, one after another. */
  predicate Calls(a: Args, l: Local, t: seq<Event>) {
    match l.pc
    case AtOpenRead => t == []
    case AtStatRead => l.rfd.Some? && t == [Event(OpenRead, Fd(l.rfd.value))]
    case AtGetRead => |t| == 2 && ReadFirst(l, t)
    case AtSetRead => ReadFirst(l, t) && AskedProtected(l, l.rfd.value, t)
    case AtOpenWrite =>
      if l.rfd.None? then t == [Event(OpenRead, Fail)]
      else ReadFirst(l, t) && Flagged(t, l.rfd.value) && |t| == Past(t)
    case AtGetWrite => |t| == 2 && CreatedFirst(a, l, t)
    case AtSetWrite => CreatedFirst(a, l, t) && AskedProtected(l, l.wfd.value, t)
    case AtStatWrite => OpenedToo(a, l, t) && |t| == Past(t) + 1
    case AtWrite =>
      if l.rfd.None? then CreatedFirst(a, l, t) && Flagged(t, l.wfd.value) && |t| == Past(t)
      else OpenedToo(a, l, t) && |t| == Past(t) + 2 && t[Past(t) + 1] == Event(Fstat(l.wfd.value), Stat(l.rnum))
    case _ => true
  }

  /** The first call, and whether a file was created. */
  predicate Opened(a: Args, l: Local, t: seq<Event>) {
    t != [] ==>
      && t[0] == Event(OpenRead, if l.rfd.Some? then Fd(l.rfd.value) else Fail)
      && (l.rfd.None? && l.wfd.Some? ==> CreatedFirst(a, l, t))
      && (l.rfd.None? && l.wfd.None? ==> forall e :: e in t && e.q.OpenWrite? ==> !e.r.Fd?)
  }

  predicate ShapeOk(a: Args, l: Local, t: seq<Event>) {
    (l.pc != AtOpenRead ==> t != []) && RestoreKnown(l, t) && Calls(a, l, t) && Opened(a, l, t)
  }

  /** The answers the kernel may give. */
  predicate Fits(q: Request, r: Reply) {
    match q
    case OpenRead => r == Fail || r.Fd?
    case OpenWrite(_, _) => r == Fail || r.Fd?
    case Fstat(_) => r == Fail || r.Stat?
    case GetFlags(_) => r == Fail || r.Got?
    case SetFlags(_, _) => r == Fail || r == Done
    case Write(_, _, _) => r == Fail || r.Written?
    case Unlink => r == Fail || r == Done
    case Close(_) => r == Done
  }

  lemma KernelFits(w: World, q: Request, r: Reply, w': World)
    requires Kernel(w, q, r, w')
    ensures Fits(q, r)
  {
  }

  /** What the positions say stays when a call is added. */
  lemma ShapeGrows(a: Args, l: Local, t: seq<Event>, e: Event)
    ensures RestoreKnown(l, t) ==> RestoreKnown(l, t + [e])
    ensures ReadFirst(l, t) ==> ReadFirst(l, t + [e])
    ensures CreatedFirst(a, l, t) ==> CreatedFirst(a, l, t + [e])
    ensures forall fd :: Flagged(t, fd) ==> Flagged(t + [e], fd) && Past(t + [e]) == Past(t)
    ensures OpenedToo(a, l, t) ==> OpenedToo(a, l, t + [e])
  {
  }

  predicate InClean(pc: Pc) { pc.AtUnlink? || pc.AtRestore? || pc.AtCloseWrite? || pc.AtCloseRead? || pc.AtEnd? }

  lemma CleanStays(l: Local)
    ensures InClean(Cleanup(l).pc) && Cleanup(l) == l.(pc := Cleanup(l).pc)
    ensures InClean(Restore(l).pc) && Restore(l) == l.(pc := Restore(l).pc)
    ensures InClean(CloseBoth(l).pc) && CloseBoth(l) == l.(pc := CloseBoth(l).pc)
    ensures InClean(CloseRead(l).pc) && CloseRead(l) == l.(pc := CloseRead(l).pc)
  {
  }

  lemma CallsKept(a: Args, l: Local, r: Reply, t: seq<Event>)
    requires LocalOk(l) && l.pc != AtEnd && Calls(a, l, t) && Ready(l) && Fits(Ask(a, l), r)
    requires l.pc == AtStatWrite && r.Stat? && r.number == l.rnum ==> l.rfd == l.wfd
    ensures Calls(a, Resume(l, r), t + [Event(Ask(a, l), r)])
  {
    var e := Event(Ask(a, l), r);
    ShapeGrows(a, l, t, e);
    CleanStays(l);
    CleanStays(l.(ret := 0));
    hide Cleanup, Restore, CloseBoth, CloseRead, Append, Buffer;
    match l.pc
    case AtOpenRead =>
    case AtStatRead =>
    case AtGetRead =>
    case AtSetRead =>
    case AtOpenWrite =>
    case AtGetWrite =>
    case AtSetWrite =>
    case AtStatWrite =>
    case _ =>
  }

  lemma RestoreKnownKept(a: Args, l: Local, r: Reply, t: seq<Event>)
    requires LocalOk(l) && l.pc != AtEnd && Calls(a, l, t) && RestoreKnown(l, t) && Ready(l)
    ensures RestoreKnown(Resume(l, r), t + [Event(Ask(a, l), r)])
  {
    CleanStays(l);
    CleanStays(l.(ret := 0));
    hide Cleanup, Restore, CloseBoth, CloseRead, Append, Buffer, OpenedToo;
  }

  lemma OpenedKept(a: Args, l: Local, r: Reply, t: seq<Event>)
    requires LocalOk(l) && l.pc != AtEnd && Calls(a, l, t) && Opened(a, l, t) && Ready(l) && Fits(Ask(a, l), r)
    requires l.pc != AtOpenRead ==> t != []
    ensures Opened(a, Resume(l, r), t + [Event(Ask(a, l), r)])
  {
    var e := Event(Ask(a, l), r);
    ShapeGrows(a, l, t, e);
    CleanStays(l);
    CleanStays(l.(ret := 0));
    hide Cleanup, Restore, CloseBoth, CloseRead, Append, Buffer, OpenedToo, Flagged, Past;
  }

  lemma ShapeKept(a: Args, l: Local, r: Reply, t: seq<Event>)
    requires LocalOk(l) && l.pc != AtEnd && Ready(l) && ShapeOk(a, l, t) && Fits(Ask(a, l), r)
    requires l.pc == AtStatWrite && r.Stat? && r.number == l.rnum ==> l.rfd == l.wfd
    ensures ShapeOk(a, Resume(l, r), t + [Event(Ask(a, l), r)])
  {
    CallsKept(a, l, r, t);
    RestoreKnownKept(a, l, r, t);
    OpenedKept(a, l, r, t);
    hide LocalOk, Calls, Opened, RestoreKnown, Fits, Resume, Ask;
  }

  // ---------- the outcome ----------

  /** No write was made, nothing was removed, nothing has failed that matters, and one number was seen. */
  ghost predicate Smooth(l: Local, t: seq<Event>) {
    forall e :: e in t ==>
      && !e.q.Write? && !e.q.Unlink? && (e.q.OpenWrite? ==> e.r != Fail)
      && (e.q.Fstat? ==> l.pc != AtStatRead && e.r == Stat(l.rnum))
  }

  ghost predicate Settled(l: Local, t: seq<Event>) {
    && (l.ret == -1 <==> Trouble(t))
    && (l.ret == -1 ==> forall e :: e in t && e.q.Write? ==> e.r == Fail)
    && (l.pc.AtUnlink? ==> l.ret == -1)
    && (Unlinked(t) <==> !l.pc.AtUnlink? && l.rfd.None? && l.wfd.Some? && l.ret == -1)
  }

  ghost predicate Outcome(l: Local, t: seq<Event>) {
    if BeforeWrite(l) then Smooth(l, t) else Settled(l, t)
  }

  lemma TroubleAdded(t: seq<Event>, e: Event)
    ensures Trouble(t + [e]) <==>
      || Trouble(t) || (e.r == Fail && (e.q.Fstat? || e.q.OpenWrite? || e.q.Write?))
      || (e.q.Fstat? && e.r.Stat? && exists f :: f in t && f.q.Fstat? && f.r.Stat? && f.r != e.r)
    ensures Unlinked(t + [e]) <==> Unlinked(t) || e.q.Unlink?
    ensures forall x :: x in t + [e] <==> x in t || x == e
  {
    assert forall x :: x in t + [e] <==> x in t || x == e;
    assert e in t + [e];
    if x, y :| x in t && y in t && x.q.Fstat? && y.q.Fstat? && x.r.Stat? && y.r.Stat? && x.r != y.r {
      assert x in t + [e] && y in t + [e];
    }
  }

  lemma SmoothNoTrouble(l: Local, t: seq<Event>)
    requires Smooth(l, t)
    ensures !Trouble(t) && !Unlinked(t)
  {
  }

  lemma SmoothKept(a: Args, l: Local, r: Reply, t: seq<Event>)
    requires LocalOk(l) && Ready(l) && BeforeWrite(l) && Calls(a, l, t) && Smooth(l, t) && Fits(Ask(a, l), r)
    ensures Outcome(Resume(l, r), t + [Event(Ask(a, l), r)])
  {
    TroubleAdded(t, Event(Ask(a, l), r));
    SmoothNoTrouble(l, t);
    hide Trouble, Unlinked, Append, Buffer;
  }

  lemma SettledKept(a: Args, l: Local, r: Reply, t: seq<Event>)
    requires LocalOk(l) && l.pc != AtEnd && Ready(l) && !BeforeWrite(l) && Settled(l, t)
    ensures Settled(Resume(l, r), t + [Event(Ask(a, l), r)]) && !BeforeWrite(Resume(l, r))
  {
    TroubleAdded(t, Event(Ask(a, l), r));
    hide Trouble, Unlinked, Append, Buffer;
  }

  lemma OutcomeKept(a: Args, l: Local, r: Reply, t: seq<Event>)
    requires LocalOk(l) && l.pc != AtEnd && Ready(l) && Calls(a, l, t) && Outcome(l, t) && Fits(Ask(a, l), r)
    ensures Outcome(Resume(l, r), t + [Event(Ask(a, l), r)])
  {
    hide LocalOk, Ready, Calls, Smooth, Settled, Fits, Resume, Ask, BeforeWrite;
    if BeforeWrite(l) {
      SmoothKept(a, l, r, t);
    } else {
      SettledKept(a, l, r, t);
    }
  }

  // ---------- each call where it belongs ----------

  /** A file is opened for appending, and written so, exactly if bit 6 of the attributes is set. */
  lemma AppendIsBitSix(high: nat, low: nat, data: seq<byte>)
    requires low < 64
    ensures Append(Args(128 * high + 64 + low, data)) && !Append(Args(128 * high + low, data))
  {
    assert (128 * high + 64 + low) / 64 == 2 * high + 1;
    assert (128 * high + low) / 64 == 2 * high;
  }

  lemma PreparedAt(t: seq<Event>, id: Id)
    requires Flagged(t, id)
    ensures Prepared(t, id)
  {
    if Protected(t[2]) {
      assert t[3].q == SetFlags(id, t[2].r.flags.(immutable := false));
      assert Cleared(t, 2, id);
    }
  }

  lemma ComparedAt(a: Args, l: Local, t: seq<Event>)
    requires OpenedToo(a, l, t) && |t| == Past(t) + 2 && l.rfd == l.wfd
    requires t[Past(t) + 1] == Event(Fstat(l.wfd.value), Stat(l.rnum))
    ensures Compared(t, l.wfd.value)
  {
    var n := Past(t);
    assert t[n].q.OpenWrite? && t[n].r == Fd(l.wfd.value);
    assert t[1].q == t[n + 1].q && t[1].r == t[n + 1].r;
  }

  lemma CreatedAt(a: Args, l: Local, t: seq<Event>)
    requires CreatedFirst(a, l, t)
    ensures CreatedAs(t, l.wfd.value)
  {
    assert t[1].r == Fd(l.wfd.value);
  }

  lemma ProtectedAt(l: Local, t: seq<Event>, fd: Id)
    requires AskedProtected(l, fd, t)
    ensures WasProtected(t, fd, l.orig.(immutable := false))
  {
    assert t[2].r.flags == l.orig;
  }

  lemma ClearedAt(l: Local, t: seq<Event>)
    requires RestoreKnown(l, t) && l.restore.Some?
    ensures WasCleared(t, l.restore.value, l.orig)
  {
    assert t[2].r == Got(l.orig) && t[3].r == Done;
  }

  lemma AskedBehind(a: Args, l: Local, t: seq<Event>)
    requires LocalOk(l) && l.pc != AtEnd && Ready(l) && ShapeOk(a, l, t) && Outcome(l, t)
    ensures Behind(a, t, Ask(a, l))
  {
    hide Prepared, Compared, CreatedAs, WasProtected, WasCleared, Trouble, Unlinked, Append, Buffer;
    match l.pc
    case AtOpenWrite =>
      if l.rfd.Some? {
        PreparedAt(t, l.rfd.value);
      }
    case AtGetWrite => CreatedAt(a, l, t);
    case AtSetRead => ProtectedAt(l, t, l.rfd.value);
    case AtSetWrite => ProtectedAt(l, t, l.wfd.value);
    case AtWrite =>
      PreparedAt(t, l.wfd.value);
      if l.rfd.None? {
        CreatedAt(a, l, t);
      } else {
        ComparedAt(a, l, t);
      }
    case AtUnlink => CreatedAt(a, l, t);
    case AtRestore => ClearedAt(l, t);
    case _ =>
  }

  /** Every call has behind it what it needs. */
  ghost predicate InOrder(a: Args, t: seq<Event>) {
    forall j :: 0 <= j < |t| ==> Behind(a, t[..j], t[j].q)
  }

  lemma InOrderAdded(a: Args, t: seq<Event>, e: Event)
    requires InOrder(a, t) && Behind(a, t, e.q)
    ensures InOrder(a, t + [e])
  {
    hide Behind;
    var t' := t + [e];
    forall j | 0 <= j < |t'| ensures Behind(a, t'[..j], t'[j].q) {
      assert t'[..j] == t[..j];
      assert t[..|t|] == t;
    }
  }

  // ---------- runs ----------

  /** The calls still to come, at most. */
  function Left(l: Local): (n: nat) {
    match l.pc
    case AtOpenRead => 10
    case AtStatRead => 9
    case AtGetRead => 8
    case AtSetRead => 7
    case AtOpenWrite => if l.rfd.Some? then 6 else 9
    case AtGetWrite => 7
    case AtSetWrite => 6
    case AtStatWrite => 5
    case AtWrite => if l.rfd.Some? then 4 else 5
    case AtUnlink => 3
    case AtRestore => if l.rfd.Some? then 3 else 2
    case AtCloseWrite => if l.rfd.Some? then 2 else 1
    case AtCloseRead => 1
    case AtEnd => 0
  }

  lemma FewerLeft(a: Args, l: Local, r: Reply)
    requires LocalOk(l) && Ready(l) && l.pc != AtEnd && Fits(Ask(a, l), r)
    ensures Left(Resume(l, r)) < Left(l)
  {
    hide Buffer, Append;
  }

  ghost predicate Told(a: Args, s: State) {
    ShapeOk(a, s.local, s.trace) && Outcome(s.local, s.trace) && InOrder(a, s.trace) && |s.trace| + Left(s.local) <= 10
  }

  lemma StepTold(a: Args, s: State, s': State, r: Reply)
    requires Efivarfs.Inv(a, s) && Told(a, s) && CallStep(a, s, s', r)
    ensures Told(a, s')
  {
    var l, t := s.local, s.trace;
    StatSame(a, l, s.world, r, s'.world);
    KernelFits(s.world, Ask(a, l), r, s'.world);
    hide LocalOk, WorldOk, TraceOk, Kernel, Resume, Ask, Ready, ShapeOk, Outcome, InOrder, Behind, Fits, Left, Calls;
    ShapeKept(a, l, r, t);
    ShapeCalls(a, l, t);
    OutcomeKept(a, l, r, t);
    AskedBehind(a, l, t);
    InOrderAdded(a, t, Event(Ask(a, l), r));
    FewerLeft(a, l, r);
  }

  lemma ShapeCalls(a: Args, l: Local, t: seq<Event>)
    requires ShapeOk(a, l, t)
    ensures Calls(a, l, t)
  {
    hide Calls;
  }

  lemma BeginTold(a: Args, s: State)
    requires Init(s)
    ensures Told(a, s)
  {
  }

  lemma {:induction false} RunTold(a: Args, states: seq<State>, i: nat)
    requires Run(a, states) && i < |states|
    ensures Told(a, states[i])
    decreases i
  {
    hide Efivarfs.Inv, Told, CallStep, EnvStep, Init;
    if i == 0 {
      BeginTold(a, states[0]);
    } else {
      RunTold(a, states, i - 1);
      RunInv(a, states, i - 1);
      var s, s' := states[i - 1], states[i];
      assert Next(a, s, s');
      if exists r :: CallStep(a, s, s', r) {
        var r :| CallStep(a, s, s', r);
        StepTold(a, s, s', r);
      } else {
        SameTold(a, s, s');
      }
    }
  }

  lemma SameTold(a: Args, s: State, s': State)
    requires Told(a, s) && s'.local == s.local && s'.trace == s.trace
    ensures Told(a, s')
  {
    hide ShapeOk, Outcome, InOrder, Left;
  }

  /** At every point of every run, each call has behind it what it needs. */
  lemma CallsInOrder(a: Args, states: seq<State>, i: nat, j: nat)
    requires Run(a, states) && i < |states| && j < |states[i].trace|
    ensures Behind(a, states[i].trace[..j], states[i].trace[j].q)
  {
    RunTold(a, states, i);
    hide Run, ShapeOk, Outcome, Behind, Left;
  }

  /** The flags are asked for once. */
  lemma AskedOnce(a: Args, states: seq<State>, i: nat, g: nat, h: nat)
    requires Run(a, states) && i < |states| && g < h < |states[i].trace| && states[i].trace[h].q.GetFlags?
    ensures !states[i].trace[g].q.GetFlags?
  {
    var t := states[i].trace;
    CallsInOrder(a, states, i, h);
    hide Run;
    assert t[..h][g] == t[g] && t[g] in t[..h];
  }

  /** A file that is created has not been asked about before. */
  lemma AskedNotCreating(a: Args, states: seq<State>, i: nat, g: nat, j: nat)
    requires Run(a, states) && i < |states| && g < j < |states[i].trace|
    requires states[i].trace[g].q.GetFlags? && states[i].trace[j].q.OpenWrite?
    ensures !states[i].trace[j].q.create
  {
    var t := states[i].trace;
    CallsInOrder(a, states, i, j);
    CallsInOrder(a, states, i, g);
    hide Run;
    assert t[..j][0] == t[..g][0];
    NothingCreated(t, g, j);
  }

  lemma NothingCreated(t: seq<Event>, g: nat, j: nat)
    requires g <= j <= |t| && forall e :: e in t[..j] ==> !e.q.OpenWrite?
    ensures forall id :: !CreatedAs(t[..g], id)
  {
    forall c | 0 <= c < g ensures !t[..g][c].q.OpenWrite? {
      assert t[..j][c] == t[..g][c] && t[..j][c] in t[..j];
    }
  }

  /** If the immutable bit of a file was seen, clearing it has been asked for between that and the opening for writing,
      and between that and the write. */
  lemma ProtectedMadeMutable(a: Args, states: seq<State>, i: nat, g: nat, j: nat)
    requires Run(a, states) && i < |states| && g < j < |states[i].trace|
    requires states[i].trace[g].q.GetFlags? && Protected(states[i].trace[g])
    requires states[i].trace[j].q.OpenWrite? || states[i].trace[j].q.Write?
    ensures states[i].trace[..j][g] == states[i].trace[g]
    ensures Cleared(states[i].trace[..j], g, states[i].trace[g].q.fd)
  {
    var t := states[i].trace;
    CallsInOrder(a, states, i, j);
    var front := t[..j];
    assert Behind(a, front, t[j].q);
    if t[j].q.OpenWrite? {
      AskedNotCreating(a, states, i, g, j);
    }
    hide Run;
    var id := if t[j].q.Write? then t[j].q.fd else front[0].r.id;
    assert Prepared(front, id);
    var h :| 0 <= h < |front| && front[h].q == GetFlags(id) && (Protected(front[h]) ==> Cleared(front, h, id));
    assert front[h] == t[h];
    if g < h {
      AskedOnce(a, states, i, g, h);
    } else if h < g {
      AskedOnce(a, states, i, h, g);
    }
  }

  /** At an exit, the call has failed exactly if there was a reason to: a failure to ask for the number of a file, to open
      it for writing or to write it, or two numbers; and a file has been removed exactly if one was created then. */
  lemma FailsForReason(a: Args, states: seq<State>, i: nat)
    requires Run(a, states) && i < |states| && states[i].local.pc == AtEnd
    ensures states[i].local.ret == -1 <==> Trouble(states[i].trace)
    ensures Unlinked(states[i].trace) <==> states[i].local.ret == -1 && exists id :: CreatedAs(states[i].trace, id)
  {
    RunTold(a, states, i);
    var l, t := states[i].local, states[i].trace;
    hide Run, Trouble, Unlinked, InOrder;
    if l.rfd.None? && l.wfd.Some? {
      CreatedAt(a, l, t);
    } else {
      NoneCreated(a, states, i);
    }
  }

  lemma NoneCreated(a: Args, states: seq<State>, i: nat)
    requires Run(a, states) && i < |states| && states[i].local.pc == AtEnd
    requires states[i].local.rfd.Some? || states[i].local.wfd.None?
    ensures forall id :: !CreatedAs(states[i].trace, id)
  {
    RunTold(a, states, i);
    var l, t := states[i].local, states[i].trace;
    forall c | 0 <= c < |t| && t[c].q.OpenWrite? && t[c].q.create ensures !t[c].r.Fd? {
      CallsInOrder(a, states, i, c);
      assert t[c] in t;
      assert t[..c][0] == t[0];
    }
    hide Run, Trouble, Unlinked, InOrder;
  }

  lemma CanStep(a: Args, s: State)
    requires Ready(s.local) && s.local.pc != AtEnd
    ensures exists r, s' :: CallStep(a, s, s', r)
  {
    hide Ready, Ask, Resume;
    var q, w := Ask(a, s.local), s.world;
    var r := if q.Close? then Done else Fail;
    var w' := if q.Close? then w.(fds := w.fds - multiset{q.fd}) else w;
    assert CallStep(a, s, State(Resume(s.local, r), w', s.trace + [Event(q, r)]), r);
  }

  lemma InvReady(a: Args, s: State)
    requires Efivarfs.Inv(a, s)
    ensures Ready(s.local)
  {
    hide LocalOk, WorldOk, TraceOk;
    LocalReady(s.local);
  }

  lemma ToldShort(a: Args, s: State)
    requires Told(a, s)
    ensures |s.trace| <= 10
  {
    hide ShapeOk, Outcome, InOrder, Left;
  }

  /** The call can always go on, and ends after ten system calls at most. */
  lemma Ends(a: Args, states: seq<State>, i: nat)
    requires Run(a, states) && i < |states|
    ensures |states[i].trace| <= 10
    ensures states[i].local.pc != AtEnd ==> exists r, s' :: CallStep(a, states[i], s', r)
  {
    hide *;
    RunTold(a, states, i);
    RunInv(a, states, i);
    ToldShort(a, states[i]);
    InvReady(a, states[i]);
    if states[i].local.pc != AtEnd {
      CanStep(a, states[i]);
    }
  }
}
