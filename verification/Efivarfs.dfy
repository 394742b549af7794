/**
  The efivarfs write protocol (efivarfs_set_variable and efivarfs_make_fd_mutable in efivarfs.c), as a
  machine of single system calls interleaved with an environment that may create, remove or replace
  the path, and change any file, between any two of them.
 */
module Efivarfs {
  import opened Bytes

  // ---------- files ----------

  /** The identity of an inode. It is never used again, unlike the number fstat reports. */
  type Id = nat

  datatype Flags = Flags(immutable: bool, others: nat)

  datatype Inode = Inode(number: nat, flags: Flags, contents: seq<byte>)

  /** What the path leads to, every inode that is linked or open, the call's descriptors, and every
      identity ever given out. */
  datatype World = World(path: Option<Id>, inodes: map<Id, Inode>, fds: multiset<Id>, used: set<Id>)

  /** Inodes that exist at the same time have different numbers. */
  ghost predicate Sound(w: World) {
    && (w.path.Some? ==> w.path.value in w.inodes)
    && (forall id :: id in w.fds ==> id in w.inodes)
    && (forall id :: id in w.inodes ==> id in w.used)
    && (forall a, b :: a in w.inodes && b in w.inodes && w.inodes[a].number == w.inodes[b].number ==> a == b)
  }

  /** Anything the rest of the system may do: it cannot touch the call's descriptors, renumber an open
      inode, or bring back an identity. */
  ghost predicate EnvStep(w: World, w': World) {
    && Sound(w') && w'.fds == w.fds && w.used <= w'.used
    && (forall id :: id in w.fds ==> id in w.inodes && w'.inodes[id].number == w.inodes[id].number)
    && (forall id :: id in w'.inodes && id !in w.inodes ==> id !in w.used)
  }

  // ---------- system calls ----------

  datatype Request =
    | OpenRead
    | OpenWrite(create: bool, append: bool)
    | Fstat(fd: Id)
    | GetFlags(fd: Id)
    | SetFlags(fd: Id, flags: Flags)
    | Write(fd: Id, bytes: seq<byte>, append: bool)
    | Unlink
    | Close(fd: Id)

  datatype Reply = Fail | Done | Fd(id: Id) | Stat(number: nat) | Got(flags: Flags) | Written(n: nat)

  function Opened(w: World, id: Id): (w': World) { w.(fds := w.fds + multiset{id}) }

  function NewFile(w: World, id: Id, i: Inode): (w': World) {
    World(Some(id), w.inodes[id := i], w.fds + multiset{id}, w.used + {id})
  }

  function Changed(w: World, fd: Id, i: Inode): (w': World) { w.(inodes := w.inodes[fd := i]) }

  /** What a write makes of the contents: it adds to them or replaces them, as the file was opened; taking nothing, it
      changes nothing. */
  function Stored(was: seq<byte>, append: bool, taken: seq<byte>): (now: seq<byte>) {
    if append then was + taken else if taken == [] then was else taken
  }

  /** The kernel's side of a call. Any call but a close may fail, and then changes nothing. */
  ghost predicate Kernel(w: World, q: Request, r: Reply, w': World) {
    (r == Fail && w' == w && !q.Close?)
    || match q
      case OpenRead => w.path.Some? && r == Fd(w.path.value) && w' == Opened(w, w.path.value)
      case OpenWrite(create, _) =>
        r.Fd? &&
        if create then
          && w.path.None? && r.id !in w.used
          && exists i: Inode ::
            && (forall a :: a in w.inodes ==> w.inodes[a].number != i.number)
            && w' == NewFile(w, r.id, i)
        else w.path == Some(r.id) && w' == Opened(w, r.id)
      case Fstat(fd) => w' == w && fd in w.inodes && r == Stat(w.inodes[fd].number)
      case GetFlags(fd) => w' == w && fd in w.inodes && r == Got(w.inodes[fd].flags)
      case SetFlags(fd, f) =>
        r == Done && fd in w.inodes && w' == Changed(w, fd, w.inodes[fd].(flags := f))
      case Write(fd, bytes, append) =>
        && r.Written? && r.n <= |bytes| && fd in w.inodes
        && w' == Changed(w, fd, w.inodes[fd].(contents := Stored(w.inodes[fd].contents, append, bytes[..r.n])))
      case Unlink => r == Done && w' == w.(path := None)
      case Close(fd) => r == Done && w' == w.(fds := w.fds - multiset{fd})
  }

  // ---------- the code ----------

  datatype Args = Args(attributes: nat, data: seq<byte>)

  /** EFI_VARIABLE_APPEND_WRITE. */
  predicate Append(a: Args) { a.attributes / 64 % 2 == 1 }

  datatype Pc =
    | AtOpenRead | AtStatRead | AtGetRead | AtSetRead | AtOpenWrite | AtGetWrite | AtSetWrite | AtStatWrite
    | AtWrite | AtUnlink | AtRestore | AtCloseWrite | AtCloseRead | AtEnd

  /** The local variables: descriptors, the number fstat gave, the flags read, the descriptor to restore. */
  datatype Local = Local(
    pc: Pc, rfd: Option<Id>, rnum: nat, orig: Flags, restore: Option<Id>, wfd: Option<Id>, ret: int)

  function Begin(): (l: Local) {
    Local(AtOpenRead, None, 0, Flags(false, 0), None, None, -1)
  }

  /** Where the clean-up part goes next, past calls it has no descriptor for. */
  function Cleanup(l: Local): (l': Local) {
    if l.ret == -1 && l.rfd.None? && l.wfd.Some? then l.(pc := AtUnlink) else Restore(l)
  }

  function Restore(l: Local): (l': Local) {
    if l.restore.Some? then l.(pc := AtRestore) else CloseBoth(l)
  }

  function CloseBoth(l: Local): (l': Local) {
    if l.wfd.Some? then l.(pc := AtCloseWrite) else CloseRead(l)
  }

  function CloseRead(l: Local): (l': Local) {
    if l.rfd.Some? then l.(pc := AtCloseRead) else l.(pc := AtEnd)
  }

  /** The attributes in front of the data. */
  function Buffer(a: Args): (b: seq<byte>) { Put(a.attributes, 4) + a.data }

  /** The descriptors a program counter relies on. */
  predicate Ready(l: Local) {
    match l.pc
    case AtOpenRead => l.rfd.None? && l.wfd.None?
    case AtStatRead => l.rfd.Some? && l.wfd.None?
    case AtGetRead => l.rfd.Some? && l.wfd.None?
    case AtSetRead => l.rfd.Some? && l.wfd.None?
    case AtOpenWrite => l.wfd.None?
    case AtGetWrite => l.rfd.None? && l.wfd.Some?
    case AtSetWrite => l.rfd.None? && l.wfd.Some?
    case AtStatWrite => l.rfd.Some? && l.wfd.Some?
    case AtWrite => l.wfd.Some?
    case AtUnlink => l.rfd.None? && l.wfd.Some?
    case AtRestore => l.restore.Some?
    case AtCloseWrite => l.wfd.Some?
    case AtCloseRead => l.rfd.Some?
    case AtEnd => true
  }

  function Ask(a: Args, l: Local): (q: Request)
    requires Ready(l) && l.pc != AtEnd
  {
    match l.pc
    case AtOpenRead => OpenRead
    case AtStatRead => Fstat(l.rfd.value)
    case AtGetRead => GetFlags(l.rfd.value)
    case AtSetRead => SetFlags(l.rfd.value, l.orig.(immutable := false))
    case AtOpenWrite => OpenWrite(l.rfd.None?, Append(a))
    case AtGetWrite => GetFlags(l.wfd.value)
    case AtSetWrite => SetFlags(l.wfd.value, l.orig.(immutable := false))
    case AtStatWrite => Fstat(l.wfd.value)
    case AtWrite => Write(l.wfd.value, Buffer(a), Append(a))
    case AtUnlink => Unlink
    case AtRestore => SetFlags(l.restore.value, l.orig)
    case AtCloseWrite => Close(l.wfd.value)
    case AtCloseRead => Close(l.rfd.value)
  }

  /** How the code goes on after a reply. */
  function Resume(l: Local, r: Reply): (l': Local)
    requires Ready(l)
  {
    match l.pc
    case AtOpenRead => if r.Fd? then l.(rfd := Some(r.id), pc := AtStatRead) else l.(pc := AtOpenWrite)
    case AtStatRead => if r.Stat? then l.(rnum := r.number, pc := AtGetRead) else Cleanup(l)
    case AtGetRead =>
      if r.Got? && r.flags.immutable then l.(orig := r.flags, pc := AtSetRead)
      else if r.Got? then l.(orig := r.flags, pc := AtOpenWrite)
      else l.(pc := AtOpenWrite)
    case AtSetRead => if r == Done then l.(restore := l.rfd, pc := AtOpenWrite) else l.(pc := AtOpenWrite)
    case AtOpenWrite =>
      if r.Fd? then l.(wfd := Some(r.id), pc := if l.rfd.None? then AtGetWrite else AtStatWrite) else Cleanup(l)
    case AtGetWrite =>
      if r.Got? && r.flags.immutable then l.(orig := r.flags, pc := AtSetWrite)
      else if r.Got? then l.(orig := r.flags, pc := AtWrite)
      else l.(pc := AtWrite)
    case AtSetWrite => if r == Done then l.(restore := l.wfd, pc := AtWrite) else l.(pc := AtWrite)
    case AtStatWrite => if r.Stat? && r.number == l.rnum then l.(pc := AtWrite) else Cleanup(l)
    case AtWrite => Cleanup(if r.Written? then l.(ret := 0) else l)
    case AtUnlink => Restore(l)
    case AtRestore => CloseBoth(l)
    case AtCloseWrite => CloseRead(l)
    case AtCloseRead => l.(pc := AtEnd)
    case AtEnd => l
  }

  // ---------- runs ----------

  datatype Event = Event(q: Request, r: Reply)

  datatype State = State(local: Local, world: World, trace: seq<Event>)

  ghost predicate Init(s: State) {
    s.local == Begin() && s.trace == [] && Sound(s.world) && s.world.fds == multiset{}
  }

  ghost predicate CallStep(a: Args, s: State, s': State, r: Reply) {
    && Ready(s.local) && s.local.pc != AtEnd
    && Kernel(s.world, Ask(a, s.local), r, s'.world)
    && s'.local == Resume(s.local, r)
    && s'.trace == s.trace + [Event(Ask(a, s.local), r)]
  }

  ghost predicate Next(a: Args, s: State, s': State) {
    (EnvStep(s.world, s'.world) && s'.local == s.local && s'.trace == s.trace)
    || exists r :: CallStep(a, s, s', r)
  }

  /** A run: any interleaving of the call with the environment. */
  ghost predicate Run(a: Args, states: seq<State>) {
    states != [] && Init(states[0]) && forall i :: 0 <= i < |states| - 1 ==> Next(a, states[i], states[i + 1])
  }

  // ---------- what traces owe ----------

  /** The inode was opened for reading, or created exclusively, by this call. */
  ghost predicate Ours(t: seq<Event>, id: Id) {
    exists i :: 0 <= i < |t| && t[i].r == Fd(id) && (t[i].q == OpenRead || (t[i].q.OpenWrite? && t[i].q.create))
  }

  ghost predicate Created(t: seq<Event>) {
    exists i :: 0 <= i < |t| && t[i].r.Fd? && t[i].q.OpenWrite? && t[i].q.create
  }

  /** Every write and every change of flags goes to an inode that was already ours; a file is removed
      only after one was created. */
  ghost predicate OnlyOurs(t: seq<Event>)
    decreases |t|
  {
    t != [] ==>
      var front, e := t[..|t| - 1], t[|t| - 1];
      && OnlyOurs(front)
      && (e.q.Write? || e.q.SetFlags? ==> Ours(front, e.q.fd))
      && (e.q.Unlink? ==> Created(front))
  }

  /** Inodes whose immutable bit was cleared and not restored yet, with the flags they had. */
  function Owed(t: seq<Event>): (m: map<Id, Flags>)
    decreases |t|
  {
    if t == [] then map[]
    else
      var m, e := Owed(t[..|t| - 1]), t[|t| - 1];
      if !e.q.SetFlags? then m
      else if e.q.flags.immutable then
        if e.q.fd in m && m[e.q.fd] == e.q.flags then m - {e.q.fd} else m
      else if e.r == Done then m[e.q.fd := e.q.flags.(immutable := true)]
      else m
  }

  /** The writes that were issued, and what they were given. */
  function Writes(t: seq<Event>): (ws: seq<Event>)
    ensures forall i :: 0 <= i < |ws| ==> ws[i].q.Write?
  {
    if t == [] then []
    else Writes(t[..|t| - 1]) + if t[|t| - 1].q.Write? then [t[|t| - 1]] else []
  }

  /** The bytes the kernel took from a write. */
  function Taken(e: Event): (b: seq<byte>)
    requires e.q.Write?
  {
    if e.r.Written? && e.r.n <= |e.q.bytes| then e.q.bytes[..e.r.n] else []
  }

  /** All it took from the call. */
  function Delivered(t: seq<Event>): (b: seq<byte>) {
    if t == [] then []
    else Delivered(t[..|t| - 1]) + if t[|t| - 1].q.Write? then Taken(t[|t| - 1]) else []
  }

  // ---------- the invariant ----------

  function OwedBy(l: Local): (m: map<Id, Flags>) {
    if l.restore.Some? && !(l.pc.AtCloseWrite? || l.pc.AtCloseRead? || l.pc.AtEnd?) then map[l.restore.value := l.orig] else map[]
  }

  function HeldRead(l: Local): (fd: Option<Id>) { if l.pc.AtEnd? then None else l.rfd }

  function HeldWrite(l: Local): (fd: Option<Id>) { if l.pc.AtCloseRead? || l.pc.AtEnd? then None else l.wfd }

  function One(fd: Option<Id>): (m: multiset<Id>) { if fd.Some? then multiset{fd.value} else multiset{} }

  /** The descriptors that are open. */
  function HeldBy(l: Local): (fds: multiset<Id>) { One(HeldRead(l)) + One(HeldWrite(l)) }

  predicate BeforeWrite(l: Local) {
    (l.pc.AtOpenRead? || l.pc.AtStatRead? || l.pc.AtGetRead? || l.pc.AtSetRead? || l.pc.AtOpenWrite? || l.pc.AtGetWrite? || l.pc.AtSetWrite? || l.pc.AtStatWrite? || l.pc.AtWrite?)
  }

  /** The local variables against each other. */
  predicate LocalOk(l: Local) {
    && Ready(l)
    && (l.restore.Some? ==> l.orig.immutable)
    && (l.restore.Some? ==> l.restore == if l.rfd.Some? then l.rfd else l.wfd)
    && ((l.pc.AtSetRead? || l.pc.AtSetWrite?) ==> l.orig.immutable)
    && ((l.pc.AtOpenRead? || l.pc.AtStatRead? || l.pc.AtGetRead? || l.pc.AtSetRead? || l.pc.AtGetWrite? || l.pc.AtSetWrite?) ==> l.restore.None?)
    && (l.rfd.None? && l.pc == AtOpenWrite ==> l.restore.None?)
    && (l.pc == AtWrite && l.rfd.Some? ==> l.rfd == l.wfd)
    && (BeforeWrite(l) ==> l.ret == -1)
    && (l.ret == 0 || l.ret == -1)
  }

  /** The descriptors against the world: an open inode still has the number fstat gave. */
  ghost predicate WorldOk(l: Local, w: World) {
    && Sound(w) && w.fds == HeldBy(l)
    && (l.rfd.Some? && (l.pc.AtGetRead? || l.pc.AtSetRead? || l.pc.AtOpenWrite? || l.pc.AtStatWrite?) ==>
          l.rfd.value in w.inodes && w.inodes[l.rfd.value].number == l.rnum)
  }

  /** The local variables against the trace. */
  ghost predicate TraceOk(a: Args, l: Local, t: seq<Event>) {
    && OnlyOurs(t)
    && (l.rfd.Some? ==> Ours(t, l.rfd.value))
    && (l.wfd.Some? && l.rfd.None? ==> Ours(t, l.wfd.value) && Created(t))
    && Owed(t) == OwedBy(l)
    && WritesOk(a, l, t)
  }

  ghost predicate WritesOk(a: Args, l: Local, t: seq<Event>) {
    && (BeforeWrite(l) ==> Writes(t) == [])
    && |Writes(t)| <= 1
    && (Writes(t) != [] ==> Writes(t)[0].q.bytes == Buffer(a))
    && (Writes(t) != [] && Writes(t)[0].r.Written? ==> Writes(t)[0].r.n <= |Buffer(a)|)
    && (l.ret == 0 <==> Writes(t) != [] && Writes(t)[0].r.Written?)
  }

  ghost predicate Inv(a: Args, s: State) {
    LocalOk(s.local) && WorldOk(s.local, s.world) && TraceOk(a, s.local, s.trace)
  }

  // ---------- it holds at the start and is kept ----------

  lemma InitInv(a: Args, s: State)
    requires Init(s)
    ensures Inv(a, s)
  {
  }

  lemma EnvKeeps(a: Args, s: State, s': State)
    requires Inv(a, s) && EnvStep(s.world, s'.world) && s'.local == s.local && s'.trace == s.trace
    ensures Inv(a, s')
  {
    hide TraceOk, LocalOk;
    var l := s.local;
    if l.rfd.Some? && (l.pc.AtGetRead? || l.pc.AtSetRead? || l.pc.AtOpenWrite? || l.pc.AtStatWrite?) {
      assert l.rfd.value in s.world.fds;
    }
  }

  /** Two open inodes with one number are one inode. */
  lemma SameInode(l: Local, w: World, r: Reply, w': World)
    requires LocalOk(l) && WorldOk(l, w) && l.pc == AtStatWrite && Kernel(w, Fstat(l.wfd.value), r, w')
    ensures r.Stat? && r.number == l.rnum ==> l.rfd == l.wfd
  {
    assert l.wfd.value in w.fds && l.rfd.value in w.fds;
  }

  lemma StatSame(a: Args, l: Local, w: World, r: Reply, w': World)
    requires LocalOk(l) && l.pc != AtEnd && WorldOk(l, w) && Kernel(w, Ask(a, l), r, w')
    ensures l.pc == AtStatWrite && r.Stat? && r.number == l.rnum ==> l.rfd == l.wfd
  {
    hide Kernel, WorldOk;
    if l.pc == AtStatWrite {
      SameInode(l, w, r, w');
    }
  }

  lemma LocalKept(l: Local, r: Reply)
    requires LocalOk(l) && (l.pc == AtStatWrite && r.Stat? && r.number == l.rnum ==> l.rfd == l.wfd)
    ensures LocalOk(Resume(l, r))
  {
    match l.pc
    case AtOpenRead =>
    case AtStatRead =>
    case AtGetRead =>
    case AtSetRead =>
    case AtOpenWrite =>
    case AtGetWrite =>
    case AtSetWrite =>
    case AtStatWrite =>
    case AtWrite =>
    case _ =>
  }

  function FdsAfter(w: World, q: Request, r: Reply): (fds: multiset<Id>) {
    match q
    case OpenRead => if r.Fd? then w.fds + multiset{r.id} else w.fds
    case OpenWrite(_, _) => if r.Fd? then w.fds + multiset{r.id} else w.fds
    case Close(fd) => w.fds - multiset{fd}
    case _ => w.fds
  }

  ghost predicate SameNumbers(w: World, w': World) {
    forall id :: id in w.inodes ==> id in w'.inodes && w'.inodes[id].number == w.inodes[id].number
  }

  lemma ChangedSound(w: World, fd: Id, i: Inode)
    requires Sound(w) && fd in w.inodes && i.number == w.inodes[fd].number
    ensures Sound(Changed(w, fd, i)) && SameNumbers(w, Changed(w, fd, i))
  {
  }

  lemma CreatedSound(w: World, id: Id, i: Inode)
    requires Sound(w) && id !in w.used && (forall a :: a in w.inodes ==> w.inodes[a].number != i.number)
    ensures Sound(NewFile(w, id, i)) && SameNumbers(w, NewFile(w, id, i))
  {
  }

  lemma OpenedSound(w: World, id: Id)
    requires Sound(w) && id in w.inodes
    ensures Sound(Opened(w, id)) && SameNumbers(w, Opened(w, id))
  {
  }

  lemma RemovedSound(w: World, fd: Id)
    requires Sound(w)
    ensures Sound(w.(path := None)) && SameNumbers(w, w.(path := None))
    ensures Sound(w.(fds := w.fds - multiset{fd})) && SameNumbers(w, w.(fds := w.fds - multiset{fd}))
  {
  }

  lemma SoundPath(w: World)
    requires Sound(w) && w.path.Some?
    ensures w.path.value in w.inodes
  {
  }

  lemma SameSelf(w: World)
    ensures SameNumbers(w, w)
  {
  }

  lemma SoundKept(w: World, q: Request, r: Reply, w': World)
    requires Sound(w) && Kernel(w, q, r, w')
    ensures Sound(w') && SameNumbers(w, w') && w'.fds == FdsAfter(w, q, r)
  {
    hide Sound, SameNumbers;
    SameSelf(w);
    if r != Fail {
      match q
      case OpenRead =>
        SoundPath(w);
        OpenedSound(w, w.path.value);
      case OpenWrite(create, _) =>
        if create {
          var i: Inode :| (forall a :: a in w.inodes ==> w.inodes[a].number != i.number) && w' == NewFile(w, r.id, i);
          CreatedSound(w, r.id, i);
        } else {
          SoundPath(w);
          OpenedSound(w, r.id);
        }
      case SetFlags(fd, f) => ChangedSound(w, fd, w.inodes[fd].(flags := f));
      case Write(fd, bytes, append) =>
        var i := w.inodes[fd].(contents := Stored(w.inodes[fd].contents, append, bytes[..r.n]));
        ChangedSound(w, fd, i);
      case Unlink => RemovedSound(w, 0);
      case Close(fd) => RemovedSound(w, fd);
      case _ =>
    }
  }

  lemma HeldNeutral(a: Args, l: Local, w: World, r: Reply)
    requires Ready(l) && l.pc != AtEnd && !r.Fd? && !l.pc.AtCloseRead? && !l.pc.AtCloseWrite?
    ensures FdsAfter(w, Ask(a, l), r) == w.fds && HeldBy(Resume(l, r)) == HeldBy(l)
  {
    hide Buffer, One;
    assert HeldRead(Resume(l, r)) == HeldRead(l) && HeldWrite(Resume(l, r)) == HeldWrite(l);
  }

  lemma OneIs(id: Id, m: multiset<Id>)
    ensures One(Some(id)) == multiset{id} && One(None) == multiset{}
    ensures m + multiset{} == m && multiset{} + m == m && m + multiset{id} - multiset{id} == m
  {
  }

  lemma HeldOpened(a: Args, l: Local, w: World, r: Reply)
    requires Ready(l) && r.Fd? && (l.pc == AtOpenRead || l.pc == AtOpenWrite)
    ensures FdsAfter(w, Ask(a, l), r) == w.fds + multiset{r.id} && HeldBy(Resume(l, r)) == HeldBy(l) + multiset{r.id}
  {
    hide One;
    OneIs(r.id, One(l.rfd));
    OneIs(r.id, multiset{r.id});
    var l' := Resume(l, r);
    if l.pc == AtOpenRead {
      assert HeldRead(l') == Some(r.id) && HeldWrite(l') == HeldRead(l) == HeldWrite(l) == None;
    } else {
      assert HeldRead(l') == HeldRead(l) == l.rfd && HeldWrite(l') == Some(r.id) && HeldWrite(l) == None;
    }
  }

  lemma HeldParts(l: Local, r: Reply)
    requires Ready(l) && (l.pc == AtCloseRead || l.pc == AtCloseWrite)
    ensures l.pc == AtCloseWrite ==>
      && HeldRead(Resume(l, r)) == HeldRead(l) == l.rfd && HeldWrite(Resume(l, r)) == None && HeldWrite(l) == l.wfd
    ensures l.pc == AtCloseRead ==>
      && HeldRead(Resume(l, r)) == None && HeldWrite(Resume(l, r)) == HeldWrite(l) == None && HeldRead(l) == l.rfd
  {
  }

  lemma HeldClosed(a: Args, l: Local, w: World, r: Reply)
    requires Ready(l) && (l.pc == AtCloseRead || l.pc == AtCloseWrite)
    ensures FdsAfter(w, Ask(a, l), r) == w.fds - multiset{Ask(a, l).fd}
    ensures HeldBy(Resume(l, r)) == HeldBy(l) - multiset{Ask(a, l).fd}
  {
    hide *;
    AskClose(a, l, w, r);
    HeldParts(l, r);
    HeldIs(l);
    HeldIs(Resume(l, r));
    if l.pc == AtCloseWrite {
      OneIs(l.wfd.value, One(l.rfd));
    } else {
      OneIs(l.rfd.value, multiset{});
    }
  }

  lemma AskClose(a: Args, l: Local, w: World, r: Reply)
    requires Ready(l) && (l.pc == AtCloseRead || l.pc == AtCloseWrite)
    ensures l.pc == AtCloseWrite ==> l.wfd.Some? && Ask(a, l) == Close(l.wfd.value)
    ensures l.pc == AtCloseRead ==> l.rfd.Some? && Ask(a, l) == Close(l.rfd.value)
    ensures FdsAfter(w, Ask(a, l), r) == w.fds - multiset{Ask(a, l).fd}
  {
    hide Buffer;
  }

  lemma HeldIs(l: Local)
    ensures HeldBy(l) == One(HeldRead(l)) + One(HeldWrite(l))
  {
  }

  lemma HeldAfter(a: Args, l: Local, w: World, r: Reply)
    requires Ready(l) && l.pc != AtEnd && w.fds == HeldBy(l)
    requires r.Fd? ==> l.pc == AtOpenRead || l.pc == AtOpenWrite
    ensures FdsAfter(w, Ask(a, l), r) == HeldBy(Resume(l, r))
  {
    hide *;
    if l.pc == AtCloseWrite || l.pc == AtCloseRead {
      HeldClosed(a, l, w, r);
    } else if r.Fd? {
      HeldOpened(a, l, w, r);
    } else {
      HeldNeutral(a, l, w, r);
    }
  }

  lemma NumberKept(a: Args, l: Local, w: World, r: Reply, w': World)
    requires LocalOk(l) && l.pc != AtEnd && WorldOk(l, w) && SameNumbers(w, w')
    requires l.pc == AtStatRead && r.Stat? ==> l.rfd.value in w.inodes && r.number == w.inodes[l.rfd.value].number
    ensures var l' := Resume(l, r);
      l'.rfd.Some? && (l'.pc.AtGetRead? || l'.pc.AtSetRead? || l'.pc.AtOpenWrite? || l'.pc.AtStatWrite?) ==>
        l'.rfd.value in w'.inodes && w'.inodes[l'.rfd.value].number == l'.rnum
  {
    hide Sound, HeldBy;
  }

  lemma OnlyOpens(a: Args, l: Local, r: Reply)
    requires Ready(l) && l.pc != AtEnd
    ensures Ask(a, l).OpenRead? || Ask(a, l).OpenWrite? ==> l.pc == AtOpenRead || l.pc == AtOpenWrite
    ensures l.pc == AtStatRead ==> Ask(a, l) == Fstat(l.rfd.value)
  {
    hide Buffer;
  }

  lemma WorldKept(a: Args, l: Local, w: World, r: Reply, w': World)
    requires LocalOk(l) && l.pc != AtEnd && WorldOk(l, w) && Kernel(w, Ask(a, l), r, w')
    ensures WorldOk(Resume(l, r), w')
  {
    LocalReady(l);
    hide Kernel, Sound, LocalOk, Resume, HeldBy, SameNumbers, Ask;
    SoundKept(w, Ask(a, l), r, w');
    StatReplies(w, Ask(a, l), r, w');
    OnlyOpens(a, l, r);
    HeldAfter(a, l, w, r);
    NumberKept(a, l, w, r, w');
  }

  lemma LocalReady(l: Local)
    requires LocalOk(l)
    ensures Ready(l)
  {
  }

  lemma StatReplies(w: World, q: Request, r: Reply, w': World)
    requires Kernel(w, q, r, w')
    ensures q.Fstat? && r.Stat? ==> q.fd in w.inodes && r.number == w.inodes[q.fd].number
    ensures r.Fd? ==> q.OpenRead? || q.OpenWrite?
  {
  }

  lemma OursGrows(t: seq<Event>, e: Event, id: Id)
    requires Ours(t, id)
    ensures Ours(t + [e], id)
  {
    var i :| 0 <= i < |t| && t[i].r == Fd(id) && (t[i].q == OpenRead || (t[i].q.OpenWrite? && t[i].q.create));
    assert (t + [e])[i] == t[i];
  }

  lemma CreatedGrows(t: seq<Event>, e: Event)
    requires Created(t)
    ensures Created(t + [e])
  {
    var i :| 0 <= i < |t| && t[i].r.Fd? && t[i].q.OpenWrite? && t[i].q.create;
    assert (t + [e])[i] == t[i];
  }

  lemma NewlyOurs(t: seq<Event>, e: Event)
    requires e.r.Fd? && (e.q == OpenRead || (e.q.OpenWrite? && e.q.create))
    ensures Ours(t + [e], e.r.id)
    ensures e.q.OpenWrite? ==> Created(t + [e])
  {
    assert (t + [e])[|t|] == e;
  }

  lemma Extends(t: seq<Event>, e: Event)
    ensures Owed(t + [e]) ==
      if !e.q.SetFlags? then Owed(t)
      else if e.q.flags.immutable then
        if e.q.fd in Owed(t) && Owed(t)[e.q.fd] == e.q.flags then Owed(t) - {e.q.fd} else Owed(t)
      else if e.r == Done then Owed(t)[e.q.fd := e.q.flags.(immutable := true)]
      else Owed(t)
    ensures Writes(t + [e]) == Writes(t) + if e.q.Write? then [e] else []
    ensures OnlyOurs(t + [e]) <==>
      OnlyOurs(t) && (e.q.Write? || e.q.SetFlags? ==> Ours(t, e.q.fd)) && (e.q.Unlink? ==> Created(t))
  {
    var t' := t + [e];
    assert t'[..|t'| - 1] == t && t'[|t'| - 1] == e;
    hide Ours, Created;
  }

  lemma OursKept(a: Args, l: Local, r: Reply, t: seq<Event>)
    requires LocalOk(l) && l.pc != AtEnd && TraceOk(a, l, t)
    ensures var t', l' := t + [Event(Ask(a, l), r)], Resume(l, r);
      && (l'.rfd.Some? ==> Ours(t', l'.rfd.value))
      && (l'.wfd.Some? && l'.rfd.None? ==> Ours(t', l'.wfd.value) && Created(t'))
  {
    var e := Event(Ask(a, l), r);
    if l.rfd.Some? {
      OursGrows(t, e, l.rfd.value);
    } else if l.wfd.Some? {
      OursGrows(t, e, l.wfd.value);
      CreatedGrows(t, e);
    } else if r.Fd? && (l.pc.AtOpenRead? || l.pc.AtOpenWrite?) {
      NewlyOurs(t, e);
    }
    hide Ours, Created, OnlyOurs, Owed, Writes;
  }

  lemma OwedKept(a: Args, l: Local, r: Reply, t: seq<Event>)
    requires LocalOk(l) && l.pc != AtEnd && Owed(t) == OwedBy(l)
    ensures Owed(t + [Event(Ask(a, l), r)]) == OwedBy(Resume(l, r))
  {
    Extends(t, Event(Ask(a, l), r));
    hide Owed, Writes, OnlyOurs, Buffer;
  }

  /** Only the write itself leaves the part before it for good, and only its success makes a success. */
  lemma WriteStep(a: Args, l: Local, r: Reply)
    requires LocalOk(l) && Ready(l) && l.pc != AtEnd
    ensures var l' := Resume(l, r);
      && (BeforeWrite(l') ==> BeforeWrite(l) && !Ask(a, l).Write?)
      && (Ask(a, l).Write? <==> l.pc == AtWrite)
      && (l.pc == AtWrite ==> BeforeWrite(l) && Ask(a, l).bytes == Buffer(a) && (l'.ret == 0 <==> r.Written?))
      && (l.pc != AtWrite ==> l'.ret == l.ret)
  {
    hide Buffer;
  }

  lemma WritesKept(a: Args, l: Local, r: Reply, t: seq<Event>)
    requires LocalOk(l) && l.pc != AtEnd && WritesOk(a, l, t)
    requires l.pc == AtWrite && r.Written? ==> r.n <= |Buffer(a)|
    ensures WritesOk(a, Resume(l, r), t + [Event(Ask(a, l), r)])
  {
    LocalReady(l);
    hide LocalOk, BeforeWrite, Owed, Writes, OnlyOurs, Buffer, Ours, Created;
    Extends(t, Event(Ask(a, l), r));
    WriteStep(a, l, r);
    hide Resume, Ask, Ready;
  }

  lemma TraceKept(a: Args, l: Local, r: Reply, t: seq<Event>)
    requires LocalOk(l) && l.pc != AtEnd && TraceOk(a, l, t)
    requires l.pc == AtWrite && r.Written? ==> r.n <= |Buffer(a)|
    ensures TraceOk(a, Resume(l, r), t + [Event(Ask(a, l), r)])
  {
    Extends(t, Event(Ask(a, l), r));
    OursKept(a, l, r, t);
    hide LocalOk, Resume, Ask, Ours, Created, OnlyOurs, Owed, OwedBy, Writes, WritesOk;
    OwedKept(a, l, r, t);
    WritesKept(a, l, r, t);
  }

  lemma WriteCount(a: Args, l: Local, w: World, r: Reply, w': World)
    requires Ready(l) && l.pc == AtWrite && Kernel(w, Ask(a, l), r, w')
    ensures r.Written? ==> r.n <= |Buffer(a)|
  {
    hide Buffer;
  }

  lemma NextKeeps(a: Args, s: State, s': State)
    requires Inv(a, s) && Next(a, s, s')
    ensures Inv(a, s')
  {
    hide LocalOk, WorldOk, TraceOk, Kernel, EnvStep, Resume, Ask;
    if EnvStep(s.world, s'.world) && s'.local == s.local && s'.trace == s.trace {
      EnvKeeps(a, s, s');
    } else {
      var r :| CallStep(a, s, s', r);
      StatSame(a, s.local, s.world, r, s'.world);
      LocalKept(s.local, r);
      WorldKept(a, s.local, s.world, r, s'.world);
      if s.local.pc == AtWrite {
        WriteCount(a, s.local, s.world, r, s'.world);
      }
      TraceKept(a, s.local, r, s.trace);
    }
  }

  lemma {:induction false} RunInv(a: Args, states: seq<State>, i: nat)
    requires Run(a, states) && i < |states|
    ensures Inv(a, states[i])
    decreases i
  {
    hide Inv, Next, Init;
    if i == 0 {
      InitInv(a, states[0]);
    } else {
      RunInv(a, states, i - 1);
      NextKeeps(a, states[i - 1], states[i]);
    }
  }

  // ---------- the results ----------

  /** At every point of every run, data and flags have gone only to an inode the call opened for reading
      first or created exclusively; there is at most one write, of the attributes and the data. */
  lemma WritesOnlyOurs(a: Args, states: seq<State>, i: nat)
    requires Run(a, states) && i < |states|
    ensures OnlyOurs(states[i].trace)
    ensures |Writes(states[i].trace)| <= 1
    ensures Writes(states[i].trace) != [] ==> Writes(states[i].trace)[0].q.bytes == Put(a.attributes, 4) + a.data
  {
    RunInv(a, states, i);
    hide Run, OnlyOurs, Writes, Owed, Ours, Created;
  }

  /** Every exit has issued a restore, with the flags it had, on every inode whose immutable bit the
      call cleared; it holds no descriptor; and it reports success exactly when the write succeeded. */
  lemma EveryExitRestores(a: Args, states: seq<State>, i: nat)
    requires Run(a, states) && i < |states| && states[i].local.pc == AtEnd
    ensures Owed(states[i].trace) == map[]
    ensures states[i].world.fds == multiset{}
    ensures states[i].local.ret == 0 <==>
      Writes(states[i].trace) != [] && Writes(states[i].trace)[0].r.Written?
  {
    RunInv(a, states, i);
    hide Run, OnlyOurs, Writes, Owed, Ours, Created;
  }

  lemma {:induction false} DeliveredBy(t: seq<Event>)
    requires |Writes(t)| <= 1
    ensures Delivered(t) == if Writes(t) == [] then [] else Taken(Writes(t)[0])
  {
    if t != [] {
      DeliveredBy(t[..|t| - 1]);
    }
  }

  /** The step that puts the first `n` bytes of the buffer into the inode the call writes to. */
  ghost predicate PutsInto(a: Args, s: State, s': State, n: nat) {
    && s.local.wfd.Some? && n <= |Buffer(a)|
    && var fd := s.local.wfd.value;
    && s'.trace == s.trace + [Event(Write(fd, Buffer(a), Append(a)), Written(n))]
    && fd in s.world.inodes && fd in s'.world.inodes
    && s'.world.inodes[fd].contents == Stored(s.world.inodes[fd].contents, Append(a), Buffer(a)[..n])
  }

  lemma WriteStepPuts(a: Args, s: State, s': State, r: Reply)
    requires CallStep(a, s, s', r) && r.Written? && s.local.pc == AtWrite
    ensures PutsInto(a, s, s', r.n)
  {
    hide Buffer, Stored;
  }

  lemma OnlyWriteWrites(a: Args, s: State, s': State, r: Reply)
    requires CallStep(a, s, s', r)
    ensures Ready(s.local) && s.local.pc != AtEnd
    ensures s'.trace == s.trace + [Event(Ask(a, s.local), r)] && (Ask(a, s.local).Write? <==> s.local.pc == AtWrite)
  {
    hide Buffer, Kernel, Resume;
  }

  /** A write in the trace is a step of the run. */
  lemma {:induction false} WriteHappened(a: Args, states: seq<State>, i: nat) returns (j: nat)
    requires Run(a, states) && i < |states|
    requires Writes(states[i].trace) != [] && Writes(states[i].trace)[0].r.Written?
    ensures j < i && PutsInto(a, states[j], states[j + 1], Writes(states[i].trace)[0].r.n)
    decreases i
  {
    hide Inv, CallStep, EnvStep, PutsInto, Writes;
    if i == 0 {
      NoWrites();
      assert false;
    }
    var s, s' := states[i - 1], states[i];
    RunInv(a, states, i);
    OneWrite(a, s');
    assert Next(a, s, s');
    if exists r :: CallStep(a, s, s', r) {
      var r :| CallStep(a, s, s', r);
      OnlyWriteWrites(a, s, s', r);
      Extends(s.trace, Event(Ask(a, s.local), r));
      if Writes(s.trace) != [] {
        assert Writes(s'.trace)[0] == Writes(s.trace)[0];
        j := WriteHappened(a, states, i - 1);
      } else {
        WriteStepPuts(a, s, s', r);
        j := i - 1;
      }
    } else {
      j := WriteHappened(a, states, i - 1);
    }
  }

  lemma NoWrites()
    ensures Writes([]) == []
  {
  }

  lemma OneWrite(a: Args, s: State)
    requires Inv(a, s)
    ensures |Writes(s.trace)| <= 1
  {
    hide LocalOk, WorldOk, OnlyOurs, Writes, Owed, Ours, Created;
  }

  /** The contents are as if all had been taken exactly when all was, or when nothing was and they were so before. */
  lemma StoredWholeIff(was: seq<byte>, append: bool, b: seq<byte>, n: nat)
    requires n <= |b| && b != []
    ensures Stored(was, append, b[..n]) == Stored(was, append, b) <==> n == |b| || (!append && n == 0 && was == b)
  {
    assert b[..|b|] == b;
    if append {
      assert |was + b[..n]| == |was| + n && |was + b| == |was| + |b|;
    }
  }

  /** At an exit the kernel has taken a prefix of attributes and data, and all of it if and only if the write returned
      its full length; a shorter count is reported as success as well. A success has put what was taken into the inode. */
  lemma DeliversWhole(a: Args, states: seq<State>, i: nat)
    requires Run(a, states) && i < |states| && states[i].local.pc == AtEnd
    ensures var ws, b, taken := Writes(states[i].trace), Put(a.attributes, 4) + a.data, Delivered(states[i].trace);
      && taken <= b
      && (taken == b <==> ws != [] && ws[0].r == Written(|b|))
      && (states[i].local.ret == 0 && taken != b <==> ws != [] && ws[0].r.Written? && ws[0].r.n < |b|)
    ensures states[i].local.ret == 0 ==>
      exists j :: 0 <= j < i && PutsInto(a, states[j], states[j + 1], |Delivered(states[i].trace)|)
  {
    RunInv(a, states, i);
    var t := states[i].trace;
    hide Run, OnlyOurs, Writes, Delivered, Owed, Ours, Created, LocalOk, WorldOk, PutsInto;
    DeliveredBy(t);
    if states[i].local.ret == 0 {
      var j := WriteHappened(a, states, i);
    }
  }

  // ---------- the file a failed call removes ----------

  /** The call has created a file and not yet cleaned up. */
  predicate HasCreated(l: Local) {
    l.rfd.None? && l.wfd.Some? && (BeforeWrite(l) || l.pc.AtUnlink?)
  }

  /** The environment leaves the path alone while the call has a created file. */
  ghost predicate PathKept(states: seq<State>) {
    forall i :: 0 <= i < |states| - 1 && states[i + 1].trace == states[i].trace && HasCreated(states[i].local) ==>
      states[i + 1].world.path == states[i].world.path
  }

  lemma CreatedLeads(a: Args, s: State, s': State, r: Reply)
    requires LocalOk(s.local) && CallStep(a, s, s', r) && HasCreated(s'.local)
    requires HasCreated(s.local) ==> s.world.path == s.local.wfd
    ensures s'.world.path == s'.local.wfd
  {
    hide Buffer;
  }

  /** If nobody else touches the path, it leads to the created file until the call removes it. */
  lemma {:induction false} OwnFileRemoved(a: Args, states: seq<State>, i: nat)
    requires Run(a, states) && PathKept(states) && i < |states|
    ensures HasCreated(states[i].local) ==> states[i].world.path == states[i].local.wfd
    decreases i
  {
    hide Inv, LocalOk, WorldOk, TraceOk, CallStep, EnvStep, HasCreated;
    if i == 0 {
      NotCreated();
    } else {
      OwnFileRemoved(a, states, i - 1);
      RunInv(a, states, i - 1);
      InvLocal(a, states[i - 1]);
      var s, s' := states[i - 1], states[i];
      assert Next(a, s, s');
      if exists r :: CallStep(a, s, s', r) {
        var r :| CallStep(a, s, s', r);
        if HasCreated(s'.local) {
          CreatedLeads(a, s, s', r);
        }
      } else {
        assert states[i - 1 + 1] == s';
      }
    }
  }

  lemma NotCreated()
    ensures !HasCreated(Begin())
  {
  }

  lemma InvLocal(a: Args, s: State)
    requires Inv(a, s)
    ensures LocalOk(s.local)
  {
    hide LocalOk, WorldOk, TraceOk;
  }

  // A run in which the created file is replaced before the clean-up.

  const ORDINARY := Flags(false, 0)

  function Local1(): (l: Local) { Begin().(pc := AtOpenWrite) }
  function Local2(): (l: Local) { Local1().(pc := AtGetWrite, wfd := Some(0)) }
  function Local4(): (l: Local) { Local2().(pc := AtWrite) }
  function Local5(): (l: Local) { Local4().(pc := AtUnlink) }
  function Local6(): (l: Local) { Local5().(pc := AtCloseWrite) }

  const NOBODY := World(None, map[], multiset{}, {})
  const CREATED := World(Some(0), map[0 := Inode(10, ORDINARY, [])], multiset{0}, {0})
  const REPLACED :=
    World(Some(1), map[0 := Inode(10, ORDINARY, []), 1 := Inode(11, ORDINARY, [])], multiset{0}, {0, 1})

  function Example(a: Args): (states: seq<State>) {
    var e1 := Event(OpenRead, Fail);
    var e2 := Event(OpenWrite(true, Append(a)), Fd(0));
    var e4 := Event(GetFlags(0), Fail);
    var e5 := Event(Write(0, Buffer(a), Append(a)), Fail);
    var e6 := Event(Unlink, Done);
    [ State(Begin(), NOBODY, []),
      State(Local1(), NOBODY, [e1]),
      State(Local2(), CREATED, [e1, e2]),
      State(Local2(), REPLACED, [e1, e2]),
      State(Local4(), REPLACED, [e1, e2, e4]),
      State(Local5(), REPLACED, [e1, e2, e4, e5]),
      State(Local6(), REPLACED.(path := None), [e1, e2, e4, e5, e6]) ]
  }

  lemma Creates(a: Args)
    ensures CallStep(a, Example(a)[1], Example(a)[2], Fd(0))
  {
    hide Buffer;
    assert CREATED == NewFile(NOBODY, 0, Inode(10, ORDINARY, []));
  }

  lemma Replaces()
    ensures EnvStep(CREATED, REPLACED)
  {
  }

  lemma CallsFail(a: Args)
    ensures CallStep(a, Example(a)[0], Example(a)[1], Fail)
    ensures CallStep(a, Example(a)[3], Example(a)[4], Fail)
  {
    hide Buffer;
  }

  lemma CleansUp(a: Args)
    ensures CallStep(a, Example(a)[4], Example(a)[5], Fail)
    ensures CallStep(a, Example(a)[5], Example(a)[6], Done)
  {
    hide Buffer;
  }

  /** The call fails, and removes a file that it neither opened nor created. */
  lemma RemovesAnother(a: Args)
    ensures Run(a, Example(a))
    ensures var s := Example(a)[5];
      s.local.pc == AtUnlink && s.world.path == Some(1) && s.local.wfd == Some(0) && !Ours(s.trace, 1)
    ensures Example(a)[6].world.path == None
  {
    Creates(a);
    Replaces();
    CallsFail(a);
    CleansUp(a);
    hide CallStep, EnvStep, Buffer;
    var states := Example(a);
    forall i | 0 <= i < 6 ensures Next(a, states[i], states[i + 1]) {
      if i == 0 {
        assert CallStep(a, states[0], states[1], Fail);
      } else if i == 1 {
        assert CallStep(a, states[1], states[2], Fd(0));
      } else if i == 2 {
        assert EnvStep(states[2].world, states[3].world);
      } else if i == 3 {
        assert CallStep(a, states[3], states[4], Fail);
      } else if i == 4 {
        assert CallStep(a, states[4], states[5], Fail);
      } else {
        assert CallStep(a, states[5], states[6], Done);
      }
    }
  }

  // A run in which the kernel takes nothing, and says so.

  function Local5Done(): (l: Local) { Local4().(pc := AtCloseWrite, ret := 0) }

  function ShortExample(a: Args): (states: seq<State>) {
    var e1 := Event(OpenRead, Fail);
    var e2 := Event(OpenWrite(true, Append(a)), Fd(0));
    var e3 := Event(GetFlags(0), Fail);
    var e4 := Event(Write(0, Buffer(a), Append(a)), Written(0));
    var e5 := Event(Close(0), Done);
    [ State(Begin(), NOBODY, []),
      State(Local1(), NOBODY, [e1]),
      State(Local2(), CREATED, [e1, e2]),
      State(Local4(), CREATED, [e1, e2, e3]),
      State(Local5Done(), CREATED, [e1, e2, e3, e4]),
      State(Local5Done().(pc := AtEnd), CREATED.(fds := multiset{}), [e1, e2, e3, e4, e5]) ]
  }

  lemma ShortStart(a: Args)
    ensures CallStep(a, ShortExample(a)[0], ShortExample(a)[1], Fail)
    ensures CallStep(a, ShortExample(a)[1], ShortExample(a)[2], Fd(0))
    ensures CallStep(a, ShortExample(a)[2], ShortExample(a)[3], Fail)
  {
    hide Buffer;
    assert CREATED == NewFile(NOBODY, 0, Inode(10, ORDINARY, []));
  }

  lemma ShortEnd(a: Args)
    ensures CallStep(a, ShortExample(a)[3], ShortExample(a)[4], Written(0))
    ensures CallStep(a, ShortExample(a)[4], ShortExample(a)[5], Done)
  {
    hide Buffer;
    assert Buffer(a)[..0] == [] && Stored([], Append(a), []) == [];
    assert CREATED == Changed(CREATED, 0, CREATED.inodes[0]);
    assert multiset{0} - multiset{0} == multiset{};
  }

  /** The call reports success although nothing was written. */
  lemma ShortWriteSucceeds(a: Args)
    ensures Run(a, ShortExample(a))
    ensures var s := ShortExample(a)[5]; s.local.pc == AtEnd && s.local.ret == 0 && Delivered(s.trace) == []
  {
    ShortStart(a);
    ShortEnd(a);
    hide CallStep, EnvStep, Buffer, Delivered;
    var states := ShortExample(a);
    forall i | 0 <= i < 5 ensures Next(a, states[i], states[i + 1]) {
      if i == 0 {
        assert CallStep(a, states[0], states[1], Fail);
      } else if i == 1 {
        assert CallStep(a, states[1], states[2], Fd(0));
      } else if i == 2 {
        assert CallStep(a, states[2], states[3], Fail);
      } else if i == 3 {
        assert CallStep(a, states[3], states[4], Written(0));
      } else {
        assert CallStep(a, states[4], states[5], Done);
      }
    }
    NothingTaken(states[5].trace);
  }

  lemma {:induction false} NothingTaken(t: seq<Event>)
    requires forall i :: 0 <= i < |t| && t[i].q.Write? ==> Taken(t[i]) == []
    ensures Delivered(t) == []
  {
    if t != [] {
      NothingTaken(t[..|t| - 1]);
    }
  }
}
