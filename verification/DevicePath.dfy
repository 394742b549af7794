/**
  Device paths (dp.c, efivar-dp.h; section 10.3.1 of the UEFI Specification 2.8).

  A path pointer is the sequence of bytes from that address on. Where the C code would read past the
  bytes given, the outcome is `PastEnd`.
 */
module DevicePath {
  import opened Bytes

  const END_TYPE: byte := 0x7f
  const END_ENTIRE: byte := 0xff
  const END_INSTANCE: byte := 0x01

  /** What a walk gives: a number, the error return, or a read past the end. */
  datatype Walk = At(n: nat) | Bad | PastEnd

  predicate HeaderAt(b: seq<byte>, o: nat) { o + 4 <= |b| }

  function TypeAt(b: seq<byte>, o: nat): (t: byte) requires HeaderAt(b, o) { b[o] }
  function SubtypeAt(b: seq<byte>, o: nat): (t: byte) requires HeaderAt(b, o) { b[o + 1] }
  function LengthAt(b: seq<byte>, o: nat): (n: nat) requires HeaderAt(b, o) { Get(b[o + 2..o + 4]) }

  predicate EntireAt(b: seq<byte>, o: nat)
    requires HeaderAt(b, o)
  {
    TypeAt(b, o) == END_TYPE && SubtypeAt(b, o) == END_ENTIRE
  }

  /** The bytes from `o` up to and including the first end-of-path node. */
  function SizeFrom(b: seq<byte>, o: nat): (r: Walk)
    decreases |b| - o
  {
    if !HeaderAt(b, o) then PastEnd
    else if LengthAt(b, o) < 4 then Bad
    else if EntireAt(b, o) then At(LengthAt(b, o))
    else
      var rest := SizeFrom(b, o + LengthAt(b, o));
      if rest.At? then At(LengthAt(b, o) + rest.n) else rest
  }

  /** Where the first node of end type is, whatever its subtype. */
  function EndFrom(b: seq<byte>, o: nat): (r: Walk)
    decreases |b| - o
  {
    if !HeaderAt(b, o) then PastEnd
    else if TypeAt(b, o) == END_TYPE then At(o)
    else if LengthAt(b, o) < 4 then Bad
    else EndFrom(b, o + LengthAt(b, o))
  }

  lemma EndIsEnd(b: seq<byte>, o: nat)
    requires EndFrom(b, o).At?
    ensures o <= EndFrom(b, o).n && HeaderAt(b, EndFrom(b, o).n) && TypeAt(b, EndFrom(b, o).n) == END_TYPE
    decreases |b| - o
  {
  }

  // ---------- the walks ----------

  method NodeSize(b: seq<byte>, o: nat) returns (r: Walk)
    ensures r == if !HeaderAt(b, o) then PastEnd else if LengthAt(b, o) < 4 then Bad else At(LengthAt(b, o))
  {
    if o + 4 > |b| {
      return PastEnd;
    }
    if Get(b[o + 2..o + 4]) < 4 {
      return Bad;
    }
    return At(Get(b[o + 2..o + 4]));
  }

  /** efidp_size, with its calls of efidp_next_instance and efidp_next_node. */
  method Size(b: seq<byte>, start: nat) returns (r: Walk)
    ensures r == SizeFrom(b, start)
  {
    hide LengthAt;
    if HeaderAt(b, start) && EntireAt(b, start) {
      r := NodeSize(b, start);
      return;
    }
    var total: nat, dp: nat := 0, start;
    while true
      invariant SizeFrom(b, start) == Plus(total, SizeFrom(b, dp))
      decreases |b| - dp
    {
      var sz := NodeSize(b, dp);
      if !sz.At? {
        return sz;
      }
      total := total + sz.n;
      // next_instance moves over an end-of-instance node, next_node over anything but the end of the path
      if !(b[dp] == END_TYPE && b[dp + 1] == END_INSTANCE) && EntireAt(b, dp) {
        return At(total);
      }
      dp := dp + sz.n;
    }
  }

  function Plus(n: nat, w: Walk): (r: Walk) { if w.At? then At(n + w.n) else w }

  /** efidp_get_next_end. */
  method NextEnd(b: seq<byte>, start: nat) returns (r: Walk)
    ensures r == EndFrom(b, start)
  {
    hide LengthAt;
    var o := start;
    while true
      invariant EndFrom(b, start) == EndFrom(b, o)
      decreases |b| - o
    {
      var sz := NodeSize(b, o);
      if sz == PastEnd {
        return PastEnd;
      }
      if b[o] == END_TYPE {
        return At(o);
      }
      if !sz.At? {
        return Bad;
      }
      o := o + sz.n;
    }
  }

  // ---------- appending ----------

  /** A new path, the error return, a read past the end, or a search that never ends. */
  datatype Outcome = Path(bytes: seq<byte>) | Error | Overrun | Diverges

  function Stopped(w: Walk): (r: Outcome)
    requires !w.At?
  {
    if w.Bad? then Error else Overrun
  }

  function EndNode(): (s: seq<byte>)
    ensures |s| == 4
  {
    [END_TYPE, END_ENTIRE, 4, 0]
  }

  function Copy(b: seq<byte>, n: nat): (r: Outcome) {
    if n <= |b| then Path(b[..n]) else Overrun
  }

  /** efidp_duplicate_path. */
  function Duplicated(b: seq<byte>): (r: Outcome) {
    var w := SizeFrom(b, 0);
    if w.At? then Copy(b, w.n) else Stopped(w)
  }

  // The search for the end of the left operand, one turn of its loop at a time.

  /** Whether the loop is over: at an end-of-path node, or stopped by an error. */
  predicate Ended(b: seq<byte>, w: Walk) {
    w.At? ==> HeaderAt(b, w.n) && EntireAt(b, w.n)
  }

  /** One turn: stay at an end-of-path node, look for the next end node otherwise. */
  function Turn(b: seq<byte>, w: Walk): (w': Walk) {
    if Ended(b, w) then w else EndFrom(b, w.n)
  }

  /** Where the search is after `k` turns. */
  function Turns(b: seq<byte>, k: nat): (w: Walk) {
    if k == 0 then At(0) else Turn(b, Turns(b, k - 1))
  }

  /** No number of turns brings the search to an end. */
  ghost predicate NeverEnds(b: seq<byte>) {
    forall k: nat :: !Ended(b, Turns(b, k))
  }

  lemma {:induction false} StaysEnded(b: seq<byte>, k: nat, i: nat)
    requires Ended(b, Turns(b, k))
    ensures Turns(b, k + i) == Turns(b, k)
    decreases i
  {
    hide Ended, EndFrom;
    if i > 0 {
      StaysEnded(b, k, i - 1);
    }
  }

  /** A search that has come to a place it does not leave is there after every later turn. */
  lemma {:induction false} StaysStuck(b: seq<byte>, k: nat, i: nat)
    requires Turns(b, k).At? && !Ended(b, Turns(b, k)) && EndFrom(b, Turns(b, k).n) == Turns(b, k)
    ensures Turns(b, k + i) == Turns(b, k)
    decreases i
  {
    hide Ended, EndFrom;
    if i > 0 {
      StaysStuck(b, k, i - 1);
    }
  }

  lemma StuckForever(b: seq<byte>, k: nat)
    requires Turns(b, k).At? && !Ended(b, Turns(b, k)) && EndFrom(b, Turns(b, k).n) == Turns(b, k)
    ensures NeverEnds(b)
  {
    hide Ended, EndFrom, Turns;
    forall j: nat ensures !Ended(b, Turns(b, j)) {
      if j >= k {
        StaysStuck(b, k, j - k);
      } else if Ended(b, Turns(b, j)) {
        StaysEnded(b, j, k - j);
      }
    }
  }

  lemma EndedOnce(b: seq<byte>, j: nat, k: nat)
    requires Ended(b, Turns(b, j)) && Ended(b, Turns(b, k))
    ensures Turns(b, j) == Turns(b, k)
  {
    hide Ended, Turns;
    if j <= k {
      StaysEnded(b, j, k - j);
    } else {
      StaysEnded(b, k, j - k);
    }
  }

  /** Where a search that ends has ended. */
  ghost function EndOf(b: seq<byte>): (w: Walk)
    requires !NeverEnds(b)
    ensures Ended(b, w)
  {
    var k: nat :| Ended(b, Turns(b, k));
    Turns(b, k)
  }

  lemma EndOfIs(b: seq<byte>, k: nat)
    requires Ended(b, Turns(b, k))
    ensures !NeverEnds(b) && EndOf(b) == Turns(b, k)
  {
    hide Ended, Turns;
    var j: nat :| Ended(b, Turns(b, j)) && EndOf(b) == Turns(b, j);
    EndedOnce(b, j, k);
  }

  /** The left operand without its end node. */
  ghost function Stripped(b: seq<byte>): (r: Outcome) {
    var size := SizeFrom(b, 0);
    if !size.At? then Stopped(size)
    else if NeverEnds(b) then Diverges
    else
      var end := EndOf(b);
      if !end.At? then Stopped(end)
      else
        var last := SizeFrom(b, end.n);
        if !last.At? then Stopped(last)
        else if size.n < last.n then Error
        else Copy(b, size.n - last.n)
  }

  /** efidp_append_path. */
  ghost function Appended(left: Option<seq<byte>>, right: Option<seq<byte>>): (r: Outcome) {
    match (left, right)
    case (None, None) => Duplicated(EndNode())
    case (Some(l), None) => Duplicated(l)
    case (None, Some(r)) => Duplicated(r)
    case (Some(l), Some(r)) =>
      var size := SizeFrom(l, 0);
      if !size.At? then Stopped(size)
      else
        var rest := SizeFrom(r, 0);
        if !rest.At? then Stopped(rest)
        else
          var head := Stripped(l);
          if !head.Path? then head
          else
            var tail := Copy(r, rest.n);
            if tail.Path? then Path(head.bytes + tail.bytes) else tail
  }

  /** efidp_append_node. */
  ghost function NodeAppended(path: Option<seq<byte>>, node: Option<seq<byte>>): (r: Outcome) {
    var head := if path.Some? then Stripped(path.value) else Path([]);
    if !head.Path? then head
    else if node.None? then Path(head.bytes + EndNode())
    else if !HeaderAt(node.value, 0) then Overrun
    else if LengthAt(node.value, 0) < 4 then Error
    else
      var n := Copy(node.value, LengthAt(node.value, 0));
      if n.Path? then Path(head.bytes + n.bytes + EndNode()) else n
  }

  method Duplicate(b: seq<byte>) returns (r: Outcome)
    ensures r == Duplicated(b)
  {
    var w := Size(b, 0);
    if !w.At? {
      return Stopped(w);
    }
    return Copy(b, w.n);
  }

  /** The search loop of append_path and append_node. A turn that stays where it is, away from the end of the
      path, is one the loop repeats for ever. */
  method FindEnd(b: seq<byte>) returns (r: Option<Walk>)
    ensures r.None? <==> NeverEnds(b)
    ensures r.Some? ==> r.value == EndOf(b)
  {
    hide EndFrom, NeverEnds, EndOf, EntireAt;
    var le: nat := 0;
    ghost var k: nat := 0;
    while !(HeaderAt(b, le) && EntireAt(b, le))
      invariant Turns(b, k) == At(le)
      decreases |b| - le
    {
      var next := NextEnd(b, le);
      if next == At(le) {
        StuckForever(b, k);
        return None;
      }
      k := k + 1;
      if !next.At? {
        EndOfIs(b, k);
        return Some(next);
      }
      EndIsEnd(b, le);
      le := next.n;
    }
    EndOfIs(b, k);
    return Some(At(le));
  }

  /** The left operand up to its end node. */
  method StripEnd(b: seq<byte>) returns (r: Outcome)
    ensures r == Stripped(b)
  {
    hide SizeFrom, NeverEnds, EndOf, Ended;
    var lsz := Size(b, 0);
    if !lsz.At? {
      return Stopped(lsz);
    }
    var end := FindEnd(b);
    if end.None? {
      return Diverges;
    }
    var le := end.value;
    if !le.At? {
      return Stopped(le);
    }
    var lesz := Size(b, le.n);
    if !lesz.At? {
      return Stopped(lesz);
    }
    if lsz.n < lesz.n {
      return Error;
    }
    return Copy(b, lsz.n - lesz.n);
  }

  method AppendPath(left: Option<seq<byte>>, right: Option<seq<byte>>) returns (r: Outcome)
    ensures r == Appended(left, right)
  {
    hide Duplicated, Stripped, SizeFrom, EndNode, Copy;
    if left.None? && right.None? {
      r := Duplicate(EndNode());
    } else if right.None? {
      r := Duplicate(left.value);
    } else if left.None? {
      r := Duplicate(right.value);
    } else {
      var lsz := Size(left.value, 0);
      if !lsz.At? {
        return Stopped(lsz);
      }
      var rsz := Size(right.value, 0);
      if !rsz.At? {
        return Stopped(rsz);
      }
      var head := StripEnd(left.value);
      if !head.Path? {
        return head;
      }
      var tail := Copy(right.value, rsz.n);
      if !tail.Path? {
        return tail;
      }
      r := Path(head.bytes + tail.bytes);
    }
  }

  method AppendNode(path: Option<seq<byte>>, node: Option<seq<byte>>) returns (r: Outcome)
    ensures r == NodeAppended(path, node)
  {
    hide Stripped, EndNode, LengthAt;
    var head := Path([]);
    if path.Some? {
      head := StripEnd(path.value);
      if !head.Path? {
        return head;
      }
    }
    var middle: seq<byte> := [];
    if node.Some? {
      var rsz := NodeSize(node.value, 0);
      if !rsz.At? {
        return Stopped(rsz);
      }
      var n := Copy(node.value, rsz.n);
      if !n.Path? {
        return n;
      }
      middle := n.bytes;
      return Path(head.bytes + middle + EndNode());
    }
    return Path(head.bytes + EndNode());
  }

  // ---------- validity ----------

  datatype Verdict = Valid | Invalid | Forever

  /** The switch of efidp_is_valid. */
  predicate KindAllowed(kind: byte, subtype: byte, length: nat) {
    match kind
    case 0x01 => subtype == 0x04 || length <= 1024
    case 0x02 => length <= 1024
    case 0x03 => subtype == 0x0a || length <= 1024
    case 0x04 => subtype == 0x03 || length <= 1024
    case 0x05 => true
    case 0x7f => length <= 4
    case _ => false
  }

  /** The walk of efidp_is_valid over the bytes its limit covers: still looking, or done. */
  datatype Judging = Looking(o: nat) | Judged(v: Verdict)

  /** One turn of its loop; it goes on only from end nodes. */
  function Look(w: seq<byte>, j: Judging): (j': Judging) {
    if j.Judged? then j
    else if j.o >= |w| then Judged(Valid)
    else if |w| - j.o < 4 then Judged(Invalid)
    else if !KindAllowed(TypeAt(w, j.o), SubtypeAt(w, j.o), LengthAt(w, j.o)) then Judged(Invalid)
    else if |w| - j.o < LengthAt(w, j.o) then Judged(Invalid)
    else if TypeAt(w, j.o) != END_TYPE then Judged(Valid)
    else Looking(j.o + LengthAt(w, j.o))
  }

  function Looks(w: seq<byte>, k: nat): (j: Judging) {
    if k == 0 then Looking(0) else Look(w, Looks(w, k - 1))
  }

  /** The verdict, or that no number of turns gives one. */
  ghost function Validity(w: seq<byte>): (v: Verdict) {
    if k: nat :| Looks(w, k).Judged? then Looks(w, k).v else Forever
  }

  lemma {:induction false} StaysJudged(w: seq<byte>, k: nat, i: nat)
    requires Looks(w, k).Judged?
    ensures Looks(w, k + i) == Looks(w, k)
    decreases i
  {
    hide *;
    if i > 0 {
      StaysJudged(w, k, i - 1);
      LooksNext(w, k + i - 1);
      JudgedStays(w, Looks(w, k));
    }
  }

  lemma LooksNext(w: seq<byte>, k: nat)
    ensures Looks(w, k + 1) == Look(w, Looks(w, k))
  {
    hide Look;
  }

  lemma JudgedStays(w: seq<byte>, j: Judging)
    requires j.Judged?
    ensures Look(w, j) == j
  {
  }

  lemma ValidityIs(w: seq<byte>, k: nat)
    requires Looks(w, k).Judged?
    ensures Validity(w) == Looks(w, k).v
  {
    hide Looks;
    var j: nat :| Looks(w, j).Judged? && Validity(w) == Looks(w, j).v;
    if j <= k {
      StaysJudged(w, j, k - j);
    } else {
      StaysJudged(w, k, j - k);
    }
  }

  lemma {:induction false} StaysLooking(w: seq<byte>, k: nat, i: nat)
    requires Looks(w, k).Looking? && Look(w, Looks(w, k)) == Looks(w, k)
    ensures Looks(w, k + i) == Looks(w, k)
    decreases i
  {
    hide Look;
    if i > 0 {
      StaysLooking(w, k, i - 1);
    }
  }

  lemma LooksForever(w: seq<byte>, k: nat)
    requires Looks(w, k).Looking? && Look(w, Looks(w, k)) == Looks(w, k)
    ensures Validity(w) == Forever
  {
    hide Looks, Look;
    forall j: nat ensures !Looks(w, j).Judged? {
      if j >= k {
        StaysLooking(w, k, j - k);
      } else if Looks(w, j).Judged? {
        StaysJudged(w, j, k - j);
      }
    }
  }

  /** efidp_is_valid. From an end node of length zero it takes the same turn for ever. */
  method IsValid(w: seq<byte>) returns (v: Verdict)
    ensures v == Validity(w)
  {
    hide KindAllowed, LengthAt, Validity;
    var o := 0;
    ghost var k: nat := 0;
    while o < |w|
      invariant 0 <= o <= |w| && Looks(w, k) == Looking(o)
      decreases |w| - o
    {
      ghost var j := Looks(w, k + 1);
      assert j == Look(w, Looking(o));
      if |w| - o < 4 {
        ValidityIs(w, k + 1);
        return Invalid;
      }
      var length := LengthAt(w, o);
      if !KindAllowed(w[o], w[o + 1], length) || |w| - o < length {
        ValidityIs(w, k + 1);
        return Invalid;
      }
      if w[o] != END_TYPE {
        ValidityIs(w, k + 1);
        return Valid;
      }
      if length == 0 {
        LooksForever(w, k);
        return Forever;
      }
      o := o + length;
      k := k + 1;
    }
    assert Looks(w, k + 1) == Judged(Valid);
    ValidityIs(w, k + 1);
    return Valid;
  }

  /** A single end node of length zero is such an input. */
  lemma ZeroLengthEnd()
    ensures Validity([END_TYPE, END_ENTIRE, 0, 0]) == Forever
  {
    var w := [END_TYPE, END_ENTIRE, 0, 0];
    assert w[2..4] == [0, 0] && [0, 0][1..] == [0] && [0][1..] == [];
    assert Get([0]) == 0 && Get([0, 0]) == 0;
    assert LengthAt(w, 0) == 0;
    assert Looks(w, 0) == Looking(0);
    LooksForever(w, 0);
  }

  // ---------- well-formed paths ----------

  datatype Node = Node(kind: byte, subtype: byte, data: seq<byte>)

  predicate Small(n: Node) { |n.data| + 4 < TWO16 }

  /** Anything but an end-of-path node. */
  predicate Inner(n: Node) { Small(n) && !(n.kind == END_TYPE && n.subtype == END_ENTIRE) }

  /** No end node of any kind. */
  predicate Plain(n: Node) { Small(n) && n.kind != END_TYPE }

  predicate AllInner(ns: seq<Node>) { forall i :: 0 <= i < |ns| ==> Inner(ns[i]) }

  predicate AllPlain(ns: seq<Node>) { forall i :: 0 <= i < |ns| ==> Plain(ns[i]) }

  function NodeBytes(n: Node): (s: seq<byte>)
    ensures |s| == 4 + |n.data|
  {
    [n.kind, n.subtype] + Put(4 + |n.data|, 2) + n.data
  }

  function NodesBytes(ns: seq<Node>): (s: seq<byte>) {
    if ns == [] then [] else NodeBytes(ns[0]) + NodesBytes(ns[1..])
  }

  /** A path of one or more instances. */
  function PathBytes(ns: seq<Node>): (s: seq<byte>) {
    NodesBytes(ns) + EndNode()
  }

  lemma NodeFields(b: seq<byte>, o: nat, n: Node)
    requires Holds(b, o, NodeBytes(n)) && Small(n)
    ensures HeaderAt(b, o) && TypeAt(b, o) == n.kind && SubtypeAt(b, o) == n.subtype && LengthAt(b, o) == 4 + |n.data|
  {
    var s, k := NodeBytes(n), Put(4 + |n.data|, 2);
    var head := [n.kind, n.subtype] + k;
    assert s == head + n.data && |head| == 4;
    HoldsSplit(b, o, head, n.data);
    HoldsSplit(b, o, [n.kind, n.subtype], k);
    var c := b[o..o + 2];
    assert c[0] == n.kind && c[1] == n.subtype;
    Widths();
    GetPut(4 + |n.data|, 2);
  }

  /** efidp_is_valid judges a path by its first node: whatever follows one that is no end node is accepted. */
  lemma ValidLooksAtFirst(n: Node, rest: seq<byte>)
    requires Plain(n)
    ensures Validity(NodeBytes(n) + rest) ==
      if KindAllowed(n.kind, n.subtype, 4 + |n.data|) then Valid else Invalid
  {
    var w := NodeBytes(n) + rest;
    WholeHolds(w);
    HoldsSplit(w, 0, NodeBytes(n), rest);
    NodeFields(w, 0, n);
    hide KindAllowed, NodeBytes, LengthAt, TypeAt, SubtypeAt, Holds, Validity;
    assert Looks(w, 0) == Looking(0);
    assert Looks(w, 1) == Look(w, Looking(0));
    ValidityIs(w, 1);
  }

  /** Nodes that may be longer than 1024 bytes: vendor nodes of hardware, messaging and media paths. */
  predicate Vendor(n: Node) {
    (n.kind, n.subtype) in {(0x01, 0x04), (0x03, 0x0a), (0x04, 0x03)}
  }

  /** A path is accepted exactly if its first node is of one of the types 1 to 5 and has at most 1024 bytes, unless it is a
      vendor node or of type 5. */
  lemma AcceptedTypes(n: Node, rest: seq<byte>)
    requires Plain(n)
    ensures Validity(NodeBytes(n) + rest) == Valid <==>
      1 <= n.kind <= 5 && (|NodeBytes(n)| <= 1024 || n.kind == 5 || Vendor(n))
    ensures Validity(NodeBytes(n) + rest) != Forever
  {
    ValidLooksAtFirst(n, rest);
    hide NodeBytes, Validity;
  }

  /** So is every path that begins with such a node. */
  lemma AcceptedPath(ns: seq<Node>)
    requires ns != [] && Plain(ns[0]) && 1 <= ns[0].kind <= 5
    requires |NodeBytes(ns[0])| <= 1024 || ns[0].kind == 5 || Vendor(ns[0])
    ensures Validity(PathBytes(ns)) == Valid
  {
    AcceptedTypes(ns[0], PathBytes(ns[1..]));
    hide NodeBytes, Validity, EndNode, Vendor;
    assert PathBytes(ns) == NodeBytes(ns[0]) + PathBytes(ns[1..]);
  }

  /** So a lone node that is no path at all is accepted. */
  lemma AcceptsNoPath()
    ensures var w := NodeBytes(Node(0x01, 0x01, [])); Validity(w) == Valid && SizeFrom(w, 0) == PastEnd
  {
    var n := Node(0x01, 0x01, []);
    var w := NodeBytes(n);
    assert w + [] == w;
    ValidLooksAtFirst(n, []);
    WholeHolds(w);
    NodeFields(w, 0, n);
    hide Validity;
    assert SizeFrom(w, 4) == PastEnd;
  }

  lemma EndFields(b: seq<byte>, o: nat)
    requires Holds(b, o, EndNode())
    ensures HeaderAt(b, o) && EntireAt(b, o) && LengthAt(b, o) == 4
    ensures SizeFrom(b, o) == At(4) && EndFrom(b, o) == At(o)
  {
    var c := b[o..o + 4];
    assert c == EndNode() && c[0] == END_TYPE && c[1] == END_ENTIRE;
    assert b[o + 2..o + 4] == c[2..4] == [4, 0];
    assert [4, 0][1..] == [0] && [0][1..] == [];
    assert Get([0]) == 0 && Get([4, 0]) == 4;
  }

  lemma PathSplits(b: seq<byte>, o: nat, ns: seq<Node>)
    requires ns != [] && Holds(b, o, PathBytes(ns))
    ensures Holds(b, o, NodeBytes(ns[0])) && Holds(b, o + |NodeBytes(ns[0])|, PathBytes(ns[1..]))
    ensures |PathBytes(ns)| == |NodeBytes(ns[0])| + |PathBytes(ns[1..])|
  {
    hide NodeBytes, EndNode;
    assert PathBytes(ns) == NodeBytes(ns[0]) + PathBytes(ns[1..]);
    HoldsSplit(b, o, NodeBytes(ns[0]), PathBytes(ns[1..]));
  }

  lemma PathOfNone()
    ensures PathBytes([]) == EndNode()
  {
  }

  lemma InnerTail(ns: seq<Node>)
    requires ns != [] && AllInner(ns)
    ensures Inner(ns[0]) && AllInner(ns[1..])
  {
  }

  lemma PlainTail(ns: seq<Node>)
    requires ns != [] && AllPlain(ns)
    ensures Plain(ns[0]) && AllPlain(ns[1..])
  {
  }

  lemma PlusIs(n: nat, k: nat)
    ensures Plus(n, At(k)) == At(n + k)
  {
  }

  lemma SizeStep(b: seq<byte>, o: nat, n: Node)
    requires Inner(n) && Holds(b, o, NodeBytes(n))
    ensures SizeFrom(b, o) == Plus(|NodeBytes(n)|, SizeFrom(b, o + |NodeBytes(n)|))
  {
    NodeFields(b, o, n);
    hide NodeBytes, Holds, LengthAt, TypeAt, SubtypeAt;
  }

  /** efidp_size is the exact sum of the node lengths, over all instances. */
  lemma {:induction false} SizeIsSum(b: seq<byte>, o: nat, ns: seq<Node>)
    requires AllInner(ns) && Holds(b, o, PathBytes(ns))
    ensures SizeFrom(b, o) == At(|PathBytes(ns)|)
    decreases |ns|
  {
    hide *;
    if ns == [] {
      PathOfNone();
      EndFields(b, o);
    } else {
      PathSplits(b, o, ns);
      InnerTail(ns);
      SizeStep(b, o, ns[0]);
      SizeIsSum(b, o + |NodeBytes(ns[0])|, ns[1..]);
      PlusIs(|NodeBytes(ns[0])|, |PathBytes(ns[1..])|);
    }
  }

  lemma EndStep(b: seq<byte>, o: nat, n: Node)
    requires Plain(n) && Holds(b, o, NodeBytes(n))
    ensures EndFrom(b, o) == EndFrom(b, o + |NodeBytes(n)|)
  {
    NodeFields(b, o, n);
    hide NodeBytes, Holds, LengthAt, TypeAt, SubtypeAt;
  }

  /** The first end node of a path without end-of-instance nodes is its last node. */
  lemma {:induction false} EndIsLast(b: seq<byte>, o: nat, ns: seq<Node>)
    requires AllPlain(ns) && Holds(b, o, PathBytes(ns))
    ensures EndFrom(b, o) == At(o + |PathBytes(ns)| - 4)
    ensures Holds(b, o + |PathBytes(ns)| - 4, EndNode())
    decreases |ns|
  {
    hide *;
    if ns == [] {
      PathOfNone();
      EndFields(b, o);
    } else {
      PathSplits(b, o, ns);
      PlainTail(ns);
      EndStep(b, o, ns[0]);
      EndIsLast(b, o + |NodeBytes(ns[0])|, ns[1..]);
    }
  }

  /** With an end-of-instance node in the way, the search stops there. */
  lemma {:induction false} EndIsInstance(b: seq<byte>, o: nat, ns: seq<Node>)
    requires AllInner(ns) && !AllPlain(ns) && Holds(b, o, PathBytes(ns))
    ensures EndFrom(b, o).At? && HeaderAt(b, EndFrom(b, o).n) && !EntireAt(b, EndFrom(b, o).n)
    decreases |ns|
  {
    hide *;
    FirstNode(ns);
    PathSplits(b, o, ns);
    if Plain(ns[0]) {
      EndStep(b, o, ns[0]);
      EndIsInstance(b, o + |NodeBytes(ns[0])|, ns[1..]);
    } else {
      EndHere(b, o, ns[0]);
    }
  }

  lemma FirstNode(ns: seq<Node>)
    requires AllInner(ns) && !AllPlain(ns)
    ensures ns != [] && Inner(ns[0]) && AllInner(ns[1..]) && (Plain(ns[0]) ==> !AllPlain(ns[1..]))
  {
    hide Inner, Plain;
    if Plain(ns[0]) {
      var i :| 0 <= i < |ns| && !Plain(ns[i]);
      assert ns[1..][i - 1] == ns[i];
    }
  }

  lemma EndHere(b: seq<byte>, o: nat, n: Node)
    requires Inner(n) && !Plain(n) && Holds(b, o, NodeBytes(n))
    ensures EndFrom(b, o) == At(o) && HeaderAt(b, o) && !EntireAt(b, o)
  {
    NodeFields(b, o, n);
    hide NodeBytes, Holds, LengthAt, TypeAt, SubtypeAt;
  }

  lemma {:induction false} NodesConcat(a: seq<Node>, c: seq<Node>)
    ensures NodesBytes(a + c) == NodesBytes(a) + NodesBytes(c)
    decreases |a|
  {
    hide NodeBytes;
    if a == [] {
      assert a + c == c;
    } else {
      calc {
        NodesBytes(a + c);
        { assert (a + c)[1..] == a[1..] + c; }
        NodeBytes(a[0]) + NodesBytes(a[1..] + c);
        { NodesConcat(a[1..], c); }
        NodeBytes(a[0]) + (NodesBytes(a[1..]) + NodesBytes(c));
        { Associative(NodeBytes(a[0]), NodesBytes(a[1..]), NodesBytes(c)); }
        NodesBytes(a) + NodesBytes(c);
      }
    }
  }

  lemma PathConcat(a: seq<Node>, c: seq<Node>)
    ensures PathBytes(a + c) == NodesBytes(a) + PathBytes(c)
  {
    NodesConcat(a, c);
    hide NodesBytes, EndNode;
    Associative(NodesBytes(a), NodesBytes(c), EndNode());
  }

  /** A buffer that starts with a path, whatever follows. */
  predicate StartsWith(b: seq<byte>, ns: seq<Node>) { Holds(b, 0, PathBytes(ns)) }

  lemma PrefixIs(b: seq<byte>, s: seq<byte>, t: seq<byte>)
    requires Holds(b, 0, s + t)
    ensures Copy(b, |s + t|) == Path(s + t) && Copy(b, |s|) == Path(s)
  {
    HoldsSplit(b, 0, s, t);
  }

  lemma DuplicatesPath(b: seq<byte>, ns: seq<Node>)
    requires AllInner(ns) && StartsWith(b, ns)
    ensures Duplicated(b) == Path(PathBytes(ns))
  {
    SizeIsSum(b, 0, ns);
    PrefixIs(b, NodesBytes(ns), EndNode());
    hide SizeFrom, NodesBytes, EndNode, Copy;
  }

  lemma StrippedIs(b: seq<byte>, n: nat)
    requires SizeFrom(b, 0) == At(n + 4) && EndFrom(b, 0) == At(n)
    requires HeaderAt(b, n) && EntireAt(b, n) && SizeFrom(b, n) == At(4)
    ensures !NeverEnds(b) && Stripped(b) == Copy(b, n)
  {
    assert Turns(b, 0) == At(0);
    assert Turns(b, 1) == At(n);
    EndOfIs(b, 1);
    hide SizeFrom, EndFrom, EntireAt, Copy, NeverEnds, EndOf, Turns;
  }

  lemma StrippedForever(b: seq<byte>)
    requires SizeFrom(b, 0).At? && EndFrom(b, 0).At?
    requires HeaderAt(b, EndFrom(b, 0).n) && !EntireAt(b, EndFrom(b, 0).n)
    ensures NeverEnds(b) && Stripped(b) == Diverges
  {
    var n := EndFrom(b, 0).n;
    EndIsEnd(b, 0);
    assert Turns(b, 0) == At(0);
    assert Turns(b, 1) == At(n);
    hide SizeFrom, EndFrom, EntireAt, Copy, EndOf, Turns, NeverEnds;
    StuckForever(b, 1);
  }

  lemma PathLength(ns: seq<Node>)
    ensures |PathBytes(ns)| == |NodesBytes(ns)| + 4 && PathBytes(ns) == NodesBytes(ns) + EndNode()
  {
    hide NodesBytes;
  }

  /** Stripping works exactly for single-instance paths. */
  lemma StripsPath(b: seq<byte>, ns: seq<Node>)
    requires AllInner(ns) && StartsWith(b, ns)
    ensures AllPlain(ns) ==> !NeverEnds(b) && Stripped(b) == Path(NodesBytes(ns))
    ensures !AllPlain(ns) ==> NeverEnds(b) && Stripped(b) == Diverges
  {
    hide *;
    StartsIs(b, ns);
    PathLength(ns);
    SizeIsSum(b, 0, ns);
    PrefixIs(b, NodesBytes(ns), EndNode());
    if AllPlain(ns) {
      EndIsLast(b, 0, ns);
      EndFields(b, |NodesBytes(ns)|);
      StrippedIs(b, |NodesBytes(ns)|);
    } else {
      EndIsInstance(b, 0, ns);
      StrippedForever(b);
    }
  }

  lemma StartsIs(b: seq<byte>, ns: seq<Node>)
    requires StartsWith(b, ns)
    ensures Holds(b, 0, PathBytes(ns))
  {
    hide PathBytes;
  }

  /** append_path on well-formed paths: the left nodes, then the right path; it fails to terminate exactly
      when the left path has more than one instance. */
  lemma AppendsPath(l: seq<byte>, r: seq<byte>, a: seq<Node>, c: seq<Node>)
    requires AllInner(a) && AllInner(c) && StartsWith(l, a) && StartsWith(r, c)
    ensures NeverEnds(l) <==> !AllPlain(a)
    ensures AllPlain(a) ==> Appended(Some(l), Some(r)) == Path(PathBytes(a + c))
    ensures !AllPlain(a) ==> Appended(Some(l), Some(r)) == Diverges
  {
    SizeIsSum(l, 0, a);
    SizeIsSum(r, 0, c);
    PrefixIs(r, NodesBytes(c), EndNode());
    StripsPath(l, a);
    PathConcat(a, c);
    hide SizeFrom, Copy, Stripped, PathBytes, NodesBytes, AllPlain, AllInner, NeverEnds;
  }

  /** append_node: the left nodes, the node, and one end node. */
  lemma AppendsNode(l: seq<byte>, r: seq<byte>, a: seq<Node>, n: Node)
    requires AllInner(a) && StartsWith(l, a) && Small(n) && Holds(r, 0, NodeBytes(n))
    ensures NeverEnds(l) <==> !AllPlain(a)
    ensures AllPlain(a) ==> NodeAppended(Some(l), Some(r)) == Path(PathBytes(a + [n]))
    ensures !AllPlain(a) ==> NodeAppended(Some(l), Some(r)) == Diverges
  {
    StripsPath(l, a);
    NodeFields(r, 0, n);
    NodesConcat(a, [n]);
    OneNode(n);
    hide Stripped, NodesBytes, AllPlain, AllInner, NodeBytes, LengthAt, EndNode, NeverEnds;
  }

  /** Two empty instances: appending to them never ends. */
  lemma TwoInstances(r: seq<byte>)
    ensures var l := PathBytes([Node(END_TYPE, END_INSTANCE, [])]);
      NeverEnds(l) && (StartsWith(r, []) ==> Appended(Some(l), Some(r)) == Diverges)
  {
    var a := [Node(END_TYPE, END_INSTANCE, [])];
    WholePath(a);
    hide PathBytes, NeverEnds, Appended, StartsWith;
    assert AllInner(a) && !Plain(a[0]) && AllInner([]);
    StripsPath(PathBytes(a), a);
    if StartsWith(r, []) {
      AppendsPath(PathBytes(a), r, a, []);
    }
  }

  lemma OneNode(n: Node)
    ensures NodesBytes([n]) == NodeBytes(n)
  {
    assert [n][1..] == [];
    assert NodeBytes(n) + [] == NodeBytes(n);
  }

  lemma WholePath(ns: seq<Node>)
    ensures StartsWith(PathBytes(ns), ns)
  {
  }

  /** append_path is associative. */
  lemma AppendAssociative(a: seq<Node>, b: seq<Node>, c: seq<Node>)
    requires AllPlain(a) && AllPlain(b) && AllInner(c)
    ensures var x, y, z := PathBytes(a), PathBytes(b), PathBytes(c);
      var xy, yz := Appended(Some(x), Some(y)), Appended(Some(y), Some(z));
      xy.Path? && yz.Path? && Appended(Some(xy.bytes), Some(z)) == Appended(Some(x), Some(yz.bytes))
  {
    InnerConcat(b, c);
    WholePath(a);
    WholePath(b);
    WholePath(c);
    WholePath(a + b);
    WholePath(b + c);
    Associative(a, b, c);
    hide PathBytes, StartsWith, Appended, AllPlain, AllInner;
    AppendsPath(PathBytes(a), PathBytes(b), a, b);
    AppendsPath(PathBytes(b), PathBytes(c), b, c);
    AppendsPath(PathBytes(a + b), PathBytes(c), a + b, c);
    AppendsPath(PathBytes(a), PathBytes(b + c), a, b + c);
  }

  lemma InnerConcat(b: seq<Node>, c: seq<Node>)
    requires AllPlain(b) && AllInner(c)
    ensures AllInner(b + c)
  {
  }

  /** A missing path is an empty one, and a missing node adds nothing. */
  lemma MissingOperands(b: seq<byte>, a: seq<Node>, r: seq<byte>, n: Node)
    requires AllPlain(a) && StartsWith(b, a) && Small(n) && Holds(r, 0, NodeBytes(n))
    ensures Appended(None, None) == Path(PathBytes([])) && NodeAppended(None, None) == Path(PathBytes([]))
    ensures Appended(Some(b), None) == Path(PathBytes(a)) && Appended(None, Some(b)) == Path(PathBytes(a))
    ensures NodeAppended(Some(b), None) == Path(PathBytes(a)) && NodeAppended(None, Some(r)) == Path(PathBytes([n]))
  {
    WholePath([]);
    DuplicatesPath(PathBytes([]), []);
    DuplicatesPath(b, a);
    StripsPath(b, a);
    NodeFields(r, 0, n);
    OneNode(n);
    assert [] + EndNode() == EndNode();
    hide Stripped, AllPlain, AllInner, NodeBytes, LengthAt, EndNode, NeverEnds, Duplicated;
    assert NodesBytes([]) == [];
  }
}
