/**
  The two-level iterator over a buffer of EFI_SIGNATURE_LIST records (esl-iter.c; section 32.4.1 of the
  UEFI Specification 2.8).

  Pointers are offsets into the buffer. Where the C code would read outside the buffer, the outcome
  is `PastEnd`.
 */
module EslIter {
  import opened Bytes
  import opened Guids

  /** EFI_SIGNATURE_DATA. */
  datatype Entry = Entry(owner: Guid, data: seq<byte>)

  /** What one call hands back. `first` marks the first entry of a list. */
  datatype Outcome =
    | Failed(overflow: bool)
    | PastEnd
    | Done
    | Item(first: bool, kind: Guid, owner: Guid, data: seq<byte>)

  /** The fields of both iterator levels. */
  datatype Cursor = Cursor(buf: seq<byte>, offset: nat, esl: Option<nat>, esd: Option<nat>, nmemb: nat, i: nat)

  function Start(b: seq<byte>): (c: Cursor) {
    Cursor(b, 0, None, None, 0, TWO32 - 1)
  }

  // Header fields of the list at `o`.
  function Kind(b: seq<byte>, o: nat): (g: Guid) requires o + 28 <= |b| { b[o..o + 16] }
  function ListSize(b: seq<byte>, o: nat): (n: nat) requires o + 28 <= |b| { Word(b, o + 16) }
  function HeaderSize(b: seq<byte>, o: nat): (n: nat) requires o + 28 <= |b| { Word(b, o + 20) }
  function SigSize(b: seq<byte>, o: nat): (n: nat) requires o + 28 <= |b| { Word(b, o + 24) }

  /** The size_t difference of the buffer length and an offset. */
  function Left(b: seq<byte>, offset: nat): (n: nat) { (|b| - offset) % TWO64 }

  predicate AllZero(s: seq<byte>) { forall i :: 0 <= i < |s| ==> s[i] == 0 }

  /** Shrinks the list at `o` to what is left of the buffer; None when it is too long and stays so. */
  function Corrected(b: seq<byte>, o: nat, offset: nat, correct: bool): (r: Option<seq<byte>>)
    requires o + 28 <= |b|
    ensures r.Some? ==> |r.value| == |b|
  {
    if ListSize(b, o) <= Left(b, offset) then Some(b)
    else if correct && Left(b, offset) > 0 then Some(Patch(b, o + 16, Put(Left(b, offset), 4)))
    else None
  }

  /** esl_list_iter_next_with_size_correction: the cursor, and nothing when it moved to a list. */
  function ListStep(c: Cursor, correct: bool): (r: (Cursor, Option<Outcome>)) {
    if U32(c.offset) >= |c.buf| then (c, Some(Failed(false)))
    else match c.esl
      case None =>
        if |c.buf| < 28 then (c, Some(PastEnd))
        else
          var c1 := c.(esl := Some(0));
          (match Corrected(c.buf, 0, c.offset, correct)
           case None => (c1, Some(Failed(true)))
           case Some(b) => Arrive(c1.(buf := b), 0, correct))
      case Some(o) =>
        if |c.buf| < o + 28 then (c, Some(PastEnd))
        else match Corrected(c.buf, o, c.offset, correct)
          case None => (c, Some(Failed(true)))
          case Some(b) =>
            var c1 := c.(buf := b, offset := c.offset + ListSize(b, o));
            if U32(c1.offset) >= |b| then (c1, Some(Done))
            else if |b| < c1.offset + 28 then (c1, Some(PastEnd))
            else Arrive(c1.(esl := Some(c1.offset)), c1.offset, correct)
  }

  function Arrive(c: Cursor, o: nat, correct: bool): (r: (Cursor, Option<Outcome>))
    requires o + 28 <= |c.buf|
  {
    if AllZero(c.buf[o..o + 28]) then (c, Some(Done))
    else match Corrected(c.buf, o, c.offset, correct)
      case None => (c, Some(Failed(true)))
      case Some(b) => (c.(buf := b, esd := Some(o + 28 + HeaderSize(b, o))), None)
  }

  /** esl_iter_next_with_size_correction. */
  function Step(c: Cursor, correct: bool): (r: (Cursor, Outcome)) {
    var c1 := c.(i := U32(c.i + 1));
    if c1.i == c1.nmemb then
      var (c2, stop) := ListStep(c1.(i := 0), correct);
      if stop.Some? then (c2, stop.value) else FirstEntry(c2)
    else NextEntry(c1)
  }

  /** The arithmetic of the member count, in 64 bits. */
  function Payload(b: seq<byte>, o: nat): (n: nat)
    requires o + 28 <= |b|
  {
    (ListSize(b, o) - 28 - HeaderSize(b, o)) % TWO64
  }

  function FirstEntry(c: Cursor): (r: (Cursor, Outcome)) {
    if c.esl.None? || |c.buf| < c.esl.value + 28 then (c, PastEnd)
    else
      var o := c.esl.value;
      if SigSize(c.buf, o) < 1 || ListSize(c.buf, o) < 28 then (c, Failed(false))
      else if Payload(c.buf, o) % SigSize(c.buf, o) != 0 then (c, Failed(false))
      else
        var c1 := c.(nmemb := Payload(c.buf, o) / SigSize(c.buf, o));
        (c1, Under(c1, true))
  }

  function NextEntry(c: Cursor): (r: (Cursor, Outcome)) {
    if c.esl.None? then (c, Failed(false))
    else if |c.buf| < c.esl.value + 28 then (c, PastEnd)
    else
      var ss := SigSize(c.buf, c.esl.value);
      if ss < 1 || ListSize(c.buf, c.esl.value) < 28 then (c, Failed(false))
      else if c.esd.None? || c.esd.value + ss > |c.buf| then (c, Failed(true))
      else
        var c1 := c.(esd := Some(c.esd.value + ss));
        (c1, Under(c1, false))
  }

  /** The entry under the cursor. */
  function Under(c: Cursor, first: bool): (r: Outcome) {
    if c.esl.None? || c.esd.None? || |c.buf| < c.esl.value + 28 then PastEnd
    else
      var ss, d := SigSize(c.buf, c.esl.value), c.esd.value;
      if ss < 16 || |c.buf| < d + ss then PastEnd
      else Item(first, Kind(c.buf, c.esl.value), c.buf[d..d + 16], c.buf[d + 16..d + ss])
  }

  /** The iterator object. */
  class Iterator {
    var buf: seq<byte>
    var offset: nat
    var esl: Option<nat>
    var esd: Option<nat>
    var nmemb: nat
    var i: nat

    ghost function State(): (c: Cursor) reads this { Cursor(buf, offset, esl, esd, nmemb, i) }

    /** esl_iter_new, after its length test. */
    constructor (b: seq<byte>)
      ensures State() == Start(b)
    {
      buf, offset, esl, esd, nmemb, i := b, 0, None, None, 0, TWO32 - 1;
    }

    /** Shrinks the list at `o` when it does not fit; false when that is not allowed. */
    method Correct(o: nat, correct: bool) returns (ok: bool)
      requires o + 28 <= |buf|
      modifies this`buf
      ensures ok == Corrected(old(buf), o, offset, correct).Some?
      ensures buf == if ok then Corrected(old(buf), o, offset, correct).value else old(buf)
    {
      var left := (|buf| - offset) % TWO64;
      if left < ListSize(buf, o) {
        if !correct || left == 0 {
          return false;
        }
        buf := Patch(buf, o + 16, Put(left, 4));
      }
      return true;
    }

    method NextList(correct: bool) returns (stop: Option<Outcome>)
      modifies this
      ensures (State(), stop) == ListStep(old(State()), correct)
    {
      hide Corrected, AllZero, Word, HeaderSize, Left;
      if U32(offset) >= |buf| {
        return Some(Failed(false));
      }
      var ok;
      if esl.None? {
        if |buf| < 28 {
          return Some(PastEnd);
        }
        esl := Some(0);
        ok := Correct(0, correct);
        if !ok {
          return Some(Failed(true));
        }
      } else {
        if |buf| < esl.value + 28 {
          return Some(PastEnd);
        }
        ok := Correct(esl.value, correct);
        if !ok {
          return Some(Failed(true));
        }
        offset := offset + ListSize(buf, esl.value);
        if U32(offset) >= |buf| {
          return Some(Done);
        }
        if |buf| < offset + 28 {
          return Some(PastEnd);
        }
        esl := Some(offset);
      }
      if AllZero(buf[esl.value..esl.value + 28]) {
        return Some(Done);
      }
      ok := Correct(esl.value, correct);
      if !ok {
        return Some(Failed(true));
      }
      esd := Some(esl.value + 28 + HeaderSize(buf, esl.value));
      return None;
    }

    method Next(correct: bool) returns (r: Outcome)
      modifies this
      ensures (State(), r) == Step(old(State()), correct)
    {
      hide ListStep, SigSize, ListSize, Kind, Payload;
      var first := false;
      i := U32(i + 1);
      if i == nmemb {
        i := 0;
        var stop := NextList(correct);
        if stop.Some? {
          return stop.value;
        }
        if esl.None? || |buf| < esl.value + 28 {
          return PastEnd;
        }
        first := true;
        var ss, sls := SigSize(buf, esl.value), ListSize(buf, esl.value);
        if ss < 1 || sls < 28 {
          return Failed(false);
        }
        if Payload(buf, esl.value) % ss != 0 {
          return Failed(false);
        }
        nmemb := Payload(buf, esl.value) / ss;
      } else {
        if esl.None? {
          return Failed(false);
        }
        if |buf| < esl.value + 28 {
          return PastEnd;
        }
        var ss, sls := SigSize(buf, esl.value), ListSize(buf, esl.value);
        if ss < 1 || sls < 28 {
          return Failed(false);
        }
        if esd.None? || esd.value + ss > |buf| {
          return Failed(true);
        }
        esd := Some(esd.value + ss);
      }
      var ss := SigSize(buf, esl.value);
      if esd.None? || ss < 16 || |buf| < esd.value + ss {
        return PastEnd;
      }
      return Item(first, Kind(buf, esl.value), buf[esd.value..esd.value + 16], buf[esd.value + 16..esd.value + ss]);
    }
  }

  // ---------- every call that hands out an entry moves forward ----------

  predicate Moving(c: Cursor) {
    && (c.esl.None? ==> c.esd.None?)
    && (c.esl.Some? ==> c.esl.value + 28 <= |c.buf| && ListSize(c.buf, c.esl.value) > 0)
  }

  function OffsetRank(c: Cursor): (n: nat) { if c.offset <= |c.buf| then |c.buf| - c.offset else 0 }

  function EntryRank(c: Cursor): (n: nat) {
    if c.esd.None? then |c.buf| + 1 else if c.esd.value <= |c.buf| then |c.buf| - c.esd.value else 0
  }

  predicate Lower(c': Cursor, c: Cursor) {
    OffsetRank(c') < OffsetRank(c) || (OffsetRank(c') == OffsetRank(c) && EntryRank(c') < EntryRank(c))
  }

  predicate NotHigher(c': Cursor, c: Cursor) {
    OffsetRank(c') < OffsetRank(c) || (OffsetRank(c') == OffsetRank(c) && EntryRank(c') <= EntryRank(c))
  }

  lemma CorrectedPositive(b: seq<byte>, o: nat, offset: nat, correct: bool)
    requires o + 28 <= |b|
    ensures Corrected(b, o, offset, correct).None? ==> ListSize(b, o) > 0
    ensures Corrected(b, o, offset, correct).Some? && ListSize(b, o) > 0 ==>
              ListSize(Corrected(b, o, offset, correct).value, o) > 0
  {
    if ListSize(b, o) > Left(b, offset) && correct && Left(b, offset) > 0 {
      var n := Left(b, offset);
      PatchHolds(b, o + 16, Put(n, 4));
      Field32(n);
      WordBound(b[o + 16..o + 20]);
    }
  }

  lemma WordBound(s: seq<byte>)
    requires |s| == 4
    ensures Get(s) < TWO32
  {
    PutGet(s);
    Widths();
  }

  lemma ArriveMoves(c: Cursor, o: nat, correct: bool)
    requires o + 28 <= |c.buf| && c.esl == Some(o)
    ensures var (c', r) := Arrive(c, o, correct);
      && |c'.buf| == |c.buf| && c'.offset == c.offset && c'.esl == Some(o) && c'.i == c.i
      && (r.None? ==> c'.esd.Some?)
      && (r == Some(Failed(true)) ==> Moving(c') && c'.esd == c.esd)
      && (r.Some? ==> !r.value.Item?)
  {
    CorrectedPositive(c.buf, o, c.offset, correct);
    hide ListSize, Corrected, AllZero, HeaderSize;
  }

  /** What holds after a move to a list, or a failed one. */
  predicate Moved(c: Cursor, c': Cursor, r: Option<Outcome>) {
    && |c'.buf| == |c.buf|
    && (r.None? ==> c'.esl.Some? && c'.esl.value + 28 <= |c'.buf| && c'.esd.Some?)
    && (r.None? ==> c.offset < c'.offset <= |c.buf| || (c'.offset == c.offset && c.esd.None?))
    && (r == Some(Failed(true)) ==> Moving(c') && NotHigher(c', c))
    && (r.Some? ==> !r.value.Item?)
  }

  lemma OpeningMoves(c: Cursor, correct: bool)
    requires Moving(c) && c.esl.None?
    ensures Moved(c, ListStep(c, correct).0, ListStep(c, correct).1)
  {
    if |c.buf| >= 28 {
      CorrectedPositive(c.buf, 0, c.offset, correct);
      var k := Corrected(c.buf, 0, c.offset, correct);
      if k.Some? {
        ArriveMoves(c.(buf := k.value, esl := Some(0)), 0, correct);
      }
    }
    hide ListSize, Corrected, Arrive, U32;
  }

  lemma AdvanceMoves(c: Cursor, correct: bool)
    requires Moving(c) && c.esl.Some?
    ensures Moved(c, ListStep(c, correct).0, ListStep(c, correct).1)
  {
    var o := c.esl.value;
    CorrectedPositive(c.buf, o, c.offset, correct);
    var k := Corrected(c.buf, o, c.offset, correct);
    if k.Some? {
      var off := c.offset + ListSize(k.value, o);
      if off + 28 <= |c.buf| {
        ArriveMoves(c.(buf := k.value, offset := off, esl := Some(off)), off, correct);
      }
    }
    hide ListSize, Corrected, Arrive, U32;
  }

  /** What holds after any call. */
  predicate Progress(c: Cursor, c': Cursor, r: Outcome) {
    && (r.Item? || r == Failed(true) ==> Moving(c'))
    && (r.Item? ==> Lower(c', c))
    && (r == Failed(true) ==> NotHigher(c', c))
  }

  lemma NextEntryMoves(c: Cursor)
    requires Moving(c)
    ensures Progress(c, NextEntry(c).0, NextEntry(c).1)
  {
    hide ListSize, SigSize, Kind;
  }

  lemma FirstEntryMoves(c: Cursor, c2: Cursor)
    requires Moving(c) && Moved(c, c2, None)
    ensures Progress(c, FirstEntry(c2).0, FirstEntry(c2).1)
  {
    hide ListSize, SigSize, Payload, Kind;
  }

  lemma StoppedMoves(c: Cursor, c2: Cursor, r: Outcome)
    requires Moving(c) && Moved(c, c2, Some(r))
    ensures Progress(c, c2, r)
  {
    hide Moving, Lower, NotHigher;
  }

  lemma ListBranch(c: Cursor, correct: bool)
    requires U32(c.i + 1) == c.nmemb
    ensures var (c2, stop) := ListStep(c.(i := 0), correct);
            Step(c, correct) == if stop.Some? then (c2, stop.value) else FirstEntry(c2)
  {
    hide ListStep, FirstEntry, U32;
  }

  lemma EntryBranch(c: Cursor, correct: bool)
    requires U32(c.i + 1) != c.nmemb
    ensures Step(c, correct) == NextEntry(c.(i := U32(c.i + 1)))
  {
    hide ListStep, FirstEntry, NextEntry, U32;
  }

  lemma CountIgnored(c: Cursor, i: nat, c': Cursor, r: Outcome)
    ensures Moving(c.(i := i)) == Moving(c)
    ensures Progress(c.(i := i), c', r) == Progress(c, c', r)
  {
    hide ListSize;
  }

  lemma ListStepMoves(c: Cursor, correct: bool)
    requires Moving(c)
    ensures Moved(c, ListStep(c, correct).0, ListStep(c, correct).1)
  {
    hide Moving, Moved, ListStep;
    if c.esl.None? {
      OpeningMoves(c, correct);
    } else {
      AdvanceMoves(c, correct);
    }
  }

  lemma StepMoves(c: Cursor, correct: bool)
    requires Moving(c)
    ensures Progress(c, Step(c, correct).0, Step(c, correct).1)
  {
    hide *;
    var (c', r) := Step(c, correct);
    if U32(c.i + 1) == c.nmemb {
      CountIgnored(c, 0, c', r);
      ListBranch(c, correct);
      var c1 := c.(i := 0);
      ListStepMoves(c1, correct);
      var (c2, stop) := ListStep(c1, correct);
      if stop.None? {
        FirstEntryMoves(c1, c2);
      } else {
        StoppedMoves(c1, c2, stop.value);
      }
    } else {
      CountIgnored(c, U32(c.i + 1), c', r);
      EntryBranch(c, correct);
      NextEntryMoves(c.(i := U32(c.i + 1)));
    }
  }

  // ---------- well-formed buffers ----------

  /** A list with a zero header size. */
  datatype Esl = Esl(kind: Guid, entries: seq<Entry>)

  predicate WellFormed(l: Esl) {
    l.entries != [] && forall e :: e in l.entries ==> |e.data| == |l.entries[0].data|
  }

  function Size(l: Esl): (n: nat)
    requires WellFormed(l)
  {
    16 + |l.entries[0].data|
  }

  /** The size of the list in the buffer. */
  function Extent(l: Esl): (n: nat)
    requires WellFormed(l)
    ensures n >= 28
  {
    28 + |l.entries| * Size(l)
  }

  function Signatures(es: seq<Entry>): (s: seq<byte>) {
    if es == [] then [] else es[0].owner + es[0].data + Signatures(es[1..])
  }

  function Head(kind: Guid, n: nat, size: nat): (s: seq<byte>)
    ensures |s| == 28
  {
    kind + (Put(28 + n * size, 4) + (Put(0, 4) + Put(size, 4)))
  }

  function EslBytes(l: Esl): (s: seq<byte>)
    requires WellFormed(l)
  {
    Head(l.kind, |l.entries|, Size(l)) + Signatures(l.entries)
  }

  /** Lists whose size their own 32-bit field can hold. */
  predicate Sizeable(ls: seq<Esl>) {
    forall l :: l in ls ==> WellFormed(l) && Extent(l) < TWO32
  }

  /** A whole buffer. */
  function Layout(ls: seq<Esl>): (s: seq<byte>)
    requires forall l :: l in ls ==> WellFormed(l)
  {
    if ls == [] then [] else EslBytes(ls[0]) + Layout(ls[1..])
  }

  function ItemOf(l: Esl, j: nat): (r: Outcome)
    requires j < |l.entries|
  {
    Item(j == 0, l.kind, l.entries[j].owner, l.entries[j].data)
  }

  /** The entries of a list in order, the first one flagged. */
  function ItemsOf(l: Esl): (r: seq<Outcome>)
    ensures |r| == |l.entries|
  {
    seq(|l.entries|, j requires 0 <= j < |l.entries| => ItemOf(l, j))
  }

  function Items(ls: seq<Esl>): (r: seq<Outcome>) {
    if ls == [] then [] else ItemsOf(ls[0]) + Items(ls[1..])
  }

  /** Calling the iterator from `c` gives `items` and then `last`. */
  predicate Yields(c: Cursor, items: seq<Outcome>, last: Outcome)
    decreases |items|
  {
    var (c', r) := Step(c, false);
    if items == [] then r == last else r == items[0] && Yields(c', items[1..], last)
  }

  /** How a walk over a well-formed buffer of `n` bytes ends: the end test looks at the low 32 bits of the
      offset only, so from 4 GiB on the iterator runs off the end. */
  function Ending(n: nat): (r: Outcome) { if n < TWO32 then Done else PastEnd }

  // ---------- where things are ----------

  lemma {:induction false} SignaturesLength(es: seq<Entry>, size: nat)
    requires forall e :: e in es ==> 16 + |e.data| == size
    ensures |Signatures(es)| == |es| * size
  {
    if es != [] {
      SignaturesLength(es[1..], size);
      calc {
        |Signatures(es)|;
        size + |Signatures(es[1..])|;
        size + (|es| - 1) * size;
        |es| * size;
      }
    }
  }

  lemma {:induction false} SlotAt(b: seq<byte>, off: nat, es: seq<Entry>, size: nat, j: nat)
    requires forall e :: e in es ==> 16 + |e.data| == size
    requires Holds(b, off, Signatures(es)) && j < |es|
    ensures 0 <= j * size
    ensures Holds(b, off + j * size, es[j].owner + es[j].data)
    decreases j
  {
    hide Holds;
    HoldsSplit(b, off, es[0].owner + es[0].data, Signatures(es[1..]));
    assert es[0] in es;
    if j > 0 {
      SlotAt(b, off + size, es[1..], size, j - 1);
      assert es[1..][j - 1] == es[j];
      OneMore(j - 1, size);
    }
  }

  lemma OneMore(j: nat, size: nat)
    ensures (j + 1) * size == size + j * size
  {
  }

  lemma SlotParts(b: seq<byte>, d: nat, e: Entry)
    requires Holds(b, d, e.owner + e.data)
    ensures d + 16 + |e.data| <= |b| && b[d..d + 16] == e.owner && b[d + 16..d + (16 + |e.data|)] == e.data
  {
    HoldsSplit(b, d, e.owner, e.data);
  }

  lemma HeadParts(b: seq<byte>, o: nat, kind: Guid, n: nat, size: nat)
    requires Holds(b, o, Head(kind, n, size))
    ensures o + 28 <= |b| && Kind(b, o) == kind
    ensures HeaderSize(b, o) == 0
    ensures ListSize(b, o) == U32(28 + n * size) && SigSize(b, o) == U32(size)
  {
    var x, y, z := Put(28 + n * size, 4), Put(0, 4), Put(size, 4);
    HoldsSplit(b, o, kind, x + (y + z));
    HoldsSplit(b, o + 16, x, y + z);
    HoldsSplit(b, o + 20, y, z);
    Field32(28 + n * size);
    Field32(0);
    Field32(size);
  }

  lemma HeadNotZero(b: seq<byte>, o: nat)
    requires o + 28 <= |b| && ListSize(b, o) != 0
    ensures !AllZero(b[o..o + 28])
  {
    var h, s := b[o..o + 28], b[o + 16..o + 20];
    if AllZero(h) {
      assert forall k :: 0 <= k < 4 ==> s[k] == h[16 + k];
      GetZero(s);
    }
  }

  lemma {:induction false} GetZero(s: seq<byte>)
    requires AllZero(s)
    ensures Get(s) == 0
  {
    if s != [] {
      GetZero(s[1..]);
    }
  }

  /** The cursor on entry `j` of the list at `o`. */
  function At(b: seq<byte>, o: nat, l: Esl, j: nat): (c: Cursor)
    requires WellFormed(l)
  {
    Cursor(b, o, Some(o), Some(o + 28 + j * Size(l)), |l.entries|, j)
  }

  /** The cursor on its last entry. */
  function Last(b: seq<byte>, o: nat, l: Esl): (c: Cursor)
    requires WellFormed(l)
  {
    At(b, o, l, |l.entries| - 1)
  }

  /** Everything a step needs to know about a list. */
  predicate Placed(b: seq<byte>, o: nat, l: Esl)
    requires WellFormed(l)
  {
    && Headed(b, o, l)
    && Kind(b, o) == l.kind && SigSize(b, o) == Size(l)
    && forall j :: 0 <= j < |l.entries| ==> Slot(b, o, l, j)
  }

  predicate Headed(b: seq<byte>, o: nat, l: Esl)
    requires WellFormed(l)
  {
    o + Extent(l) <= |b| < TWO64 && Extent(l) < TWO32 && HeaderSize(b, o) == 0 && ListSize(b, o) == Extent(l)
  }

  predicate Slot(b: seq<byte>, o: nat, l: Esl, j: nat)
    requires WellFormed(l) && j < |l.entries|
  {
    var d := o + 28 + j * Size(l);
    && 0 <= d && d + Size(l) <= |b|
    && b[d..d + 16] == l.entries[j].owner && b[d + 16..d + Size(l)] == l.entries[j].data
  }

  lemma SlotsPlaced(b: seq<byte>, o: nat, l: Esl, j: nat)
    requires WellFormed(l) && Holds(b, o + 28, Signatures(l.entries)) && j < |l.entries|
    ensures Slot(b, o, l, j)
  {
    SlotAt(b, o + 28, l.entries, Size(l), j);
    hide Signatures, Holds;
    SlotParts(b, o + 28 + j * Size(l), l.entries[j]);
    assert l.entries[j] in l.entries;
  }

  lemma EslPlaced(b: seq<byte>, o: nat, l: Esl)
    requires WellFormed(l) && Extent(l) < TWO32 && Holds(b, o, EslBytes(l)) && |b| < TWO64
    ensures Placed(b, o, l) && |EslBytes(l)| == Extent(l)
  {
    hide Head, Signatures, Kind, HeaderSize, SigSize, ListSize, Slot, Holds;
    HoldsSplit(b, o, Head(l.kind, |l.entries|, Size(l)), Signatures(l.entries));
    SignaturesLength(l.entries, Size(l));
    SizeFits(l);
    HeadParts(b, o, l.kind, |l.entries|, Size(l));
    HoldsInside(b, o + 28, Signatures(l.entries));
    forall j | 0 <= j < |l.entries| ensures Slot(b, o, l, j) {
      SlotsPlaced(b, o, l, j);
    }
  }

  lemma HoldsInside(b: seq<byte>, o: nat, s: seq<byte>)
    requires Holds(b, o, s)
    ensures o + |s| <= |b|
  {
  }

  lemma SizeFits(l: Esl)
    requires WellFormed(l)
    ensures Size(l) <= |l.entries| * Size(l)
  {
  }

  // ---------- single steps ----------

  lemma UnderSlot(b: seq<byte>, o: nat, l: Esl, j: nat, first: bool)
    requires WellFormed(l) && j < |l.entries| && Placed(b, o, l) && first == (j == 0)
    ensures Under(At(b, o, l, j), first) == ItemOf(l, j)
  {
    hide Kind, HeaderSize, SigSize, ListSize;
    assert Slot(b, o, l, j);
  }

  lemma Within(b: seq<byte>, o: nat, l: Esl, j: nat)
    requires WellFormed(l) && j + 1 < |l.entries| && Placed(b, o, l)
    ensures Step(At(b, o, l, j), false) == (At(b, o, l, j + 1), ItemOf(l, j + 1))
  {
    UnderSlot(b, o, l, j + 1, false);
    hide Kind, HeaderSize, SigSize, ListSize, Under, ItemOf;
    assert Slot(b, o, l, j) && Slot(b, o, l, j + 1);
    EntryCountFits(l);
    var c := At(b, o, l, j).(i := j + 1);
    assert Step(At(b, o, l, j), false) == NextEntry(c);
    hide Size, WellFormed;
    assert c.(esd := Some(c.esd.value + Size(l))) == At(b, o, l, j + 1);
  }

  lemma EntryCountFits(l: Esl)
    requires WellFormed(l)
    ensures |l.entries| <= |l.entries| * Size(l)
  {
  }

  lemma Division(n: nat, d: nat)
    requires d > 0
    ensures n * d % d == 0 && n * d / d == n
  {
    ModuloOfSum(d, n, 0);
    assert n * d == d * n;
    assert d * n == d * (d * n / d) + d * n % d;
    assert d * (n - n * d / d) == 0;
    Between(d, n - n * d / d);
  }

  lemma FirstOf(b: seq<byte>, o: nat, l: Esl, n: nat)
    requires WellFormed(l) && Placed(b, o, l)
    ensures FirstEntry(Cursor(b, o, Some(o), Some(o + 28), n, 0)) == (At(b, o, l, 0), ItemOf(l, 0))
  {
    UnderSlot(b, o, l, 0, true);
    hide Kind, HeaderSize, SigSize, ListSize, Under, ItemOf, Slot;
    Division(|l.entries|, Size(l));
    EntryCountFits(l);
    assert Payload(b, o) == |l.entries| * Size(l);
    var c := Cursor(b, o, Some(o), Some(o + 28), |l.entries|, 0);
    assert c == At(b, o, l, 0);
  }

  lemma NoCorrection(b: seq<byte>, o: nat, offset: nat)
    requires o + 28 <= |b| < TWO64 && offset + ListSize(b, o) <= |b|
    ensures Corrected(b, o, offset, false) == Some(b)
  {
    hide ListSize;
  }

  lemma ArriveAt(b: seq<byte>, o: nat, l: Esl, c: Cursor)
    requires WellFormed(l) && Headed(b, o, l)
    requires c.buf == b && c.offset == o && c.esl == Some(o)
    ensures Arrive(c, o, false) == (c.(esd := Some(o + 28)), None)
  {
    HeadNotZero(b, o);
    NoCorrection(b, o, o);
    hide HeaderSize, ListSize, AllZero, Extent, Corrected;
  }

  lemma Opening(b: seq<byte>, l: Esl)
    requires WellFormed(l) && Placed(b, 0, l)
    ensures Step(Start(b), false) == (At(b, 0, l, 0), ItemOf(l, 0))
  {
    var c := Cursor(b, 0, Some(0), None, 0, 0);
    ArriveAt(b, 0, l, c);
    FirstOf(b, 0, l, 0);
    hide Kind, HeaderSize, SigSize, ListSize, AllZero, Slot, Arrive, FirstEntry, At, ItemOf;
    assert ListStep(Start(b).(i := 0), false) == (c.(esd := Some(28)), None);
  }

  /** The list level moves on by the size of the list it is on. */
  lemma Advance(b: seq<byte>, o: nat, l: Esl, o': nat, l': Esl, c: Cursor)
    requires WellFormed(l) && WellFormed(l')
    requires Headed(b, o, l) && o' == o + Extent(l) && Headed(b, o', l')
    requires c.buf == b && c.offset == o && c.esl == Some(o)
    ensures ListStep(c, false) == (c.(offset := o', esl := Some(o'), esd := Some(o' + 28)), None)
  {
    ArriveAt(b, o', l', c.(offset := o', esl := Some(o')));
    NoCorrection(b, o, o);
    hide HeaderSize, ListSize, AllZero, Arrive, Extent, Corrected;
  }

  lemma LastStep(b: seq<byte>, o: nat, l: Esl)
    requires WellFormed(l) && Placed(b, o, l)
    ensures var c := Last(b, o, l);
      && c.buf == b && c.offset == o && c.esl == Some(o)
      && var (c2, stop) := ListStep(c.(i := 0), false);
         Step(c, false) == if stop.Some? then (c2, stop.value) else FirstEntry(c2)
  {
    EntryCountFits(l);
    hide Kind, HeaderSize, SigSize, ListSize, Slot, FirstEntry, Extent, Size, ListStep;
  }

  lemma Across(b: seq<byte>, o: nat, l: Esl, l': Esl)
    requires WellFormed(l) && WellFormed(l')
    requires Placed(b, o, l) && Placed(b, o + Extent(l), l')
    ensures Step(Last(b, o, l), false) == (At(b, o + Extent(l), l', 0), ItemOf(l', 0))
  {
    LastIs(b, o, l);
    hide *;
    LastStep(b, o, l);
    PlacedHeaded(b, o, l);
    PlacedHeaded(b, o + Extent(l), l');
    var o', c := o + Extent(l), Last(b, o, l).(i := 0);
    Advance(b, o, l, o', l', c);
    FirstOf(b, o', l', c.nmemb);
  }

  lemma PlacedHeaded(b: seq<byte>, o: nat, l: Esl)
    requires WellFormed(l) && Placed(b, o, l)
    ensures Headed(b, o, l)
  {
    hide Headed, Slot;
  }

  /** A step from the last entry of a list that ends at `e` gives `last`. */
  ghost predicate Closes(b: seq<byte>, e: nat, last: Outcome) {
    forall o: nat, l: Esl :: WellFormed(l) && Placed(b, o, l) && o + Extent(l) == e ==>
      Step(Last(b, o, l), false).1 == last
  }

  lemma EndCloses(b: seq<byte>)
    ensures Closes(b, |b|, Ending(|b|))
  {
    hide Step, Last, Placed, Extent, WellFormed;
    forall o: nat, l: Esl | WellFormed(l) && Placed(b, o, l) && o + Extent(l) == |b|
      ensures Step(Last(b, o, l), false).1 == Ending(|b|) {
      Closing(b, o, l);
    }
  }

  lemma Closing(b: seq<byte>, o: nat, l: Esl)
    requires WellFormed(l) && Placed(b, o, l) && |b| == o + Extent(l)
    ensures Step(Last(b, o, l), false).1 == Ending(|b|)
  {
    EntryCountFits(l);
    NoCorrection(b, o, o);
    hide Kind, HeaderSize, SigSize, ListSize, AllZero, Slot, Arrive, FirstEntry, ItemOf, Extent, Size, Corrected;
  }

  // ---------- the whole walk ----------

  lemma SizeableFormed(ls: seq<Esl>)
    requires Sizeable(ls)
    ensures forall l :: l in ls ==> WellFormed(l)
  {
  }

  /** In a buffer below 4 GiB every list is. */
  lemma {:induction false} SmallSizeable(ls: seq<Esl>)
    requires (forall l :: l in ls ==> WellFormed(l)) && |Layout(ls)| < TWO32
    ensures Sizeable(ls)
    decreases |ls|
  {
    hide EslBytes, Extent, WellFormed;
    if ls != [] {
      EslLength(ls[0]);
      SmallSizeable(ls[1..]);
      assert forall l :: l in ls ==> l == ls[0] || l in ls[1..];
    }
  }

  lemma EslLength(l: Esl)
    requires WellFormed(l)
    ensures |EslBytes(l)| == Extent(l)
  {
    SignaturesLength(l.entries, Size(l));
    hide Signatures, Head;
  }

  lemma {:induction false} YieldsFrom(b: seq<byte>, o: nat, ls: seq<Esl>, j: nat, last: Outcome)
    requires |b| < TWO64 && ls != [] && Sizeable(ls) && j < |ls[0].entries|
    requires Holds(b, o, Layout(ls)) && Closes(b, o + |Layout(ls)|, last)
    ensures Yields(At(b, o, ls[0], j), Items(ls)[j + 1..], last)
    decreases |ls|, |ls[0].entries| - j
  {
    hide *;
    var l, rest := ls[0], ls[1..];
    LayoutSplits(b, o, ls);
    EslPlaced(b, o, l);
    ItemsSplit(ls, j);
    var c := At(b, o, l, j);
    LastIs(b, o, l);
    if j + 1 < |l.entries| {
      Within(b, o, l, j);
      YieldsFrom(b, o, ls, j + 1, last);
      YieldsStep(c, At(b, o, l, j + 1), Items(ls)[j + 1..], last);
    } else if rest == [] {
      ClosesBy(b, o, l, last);
      YieldsEnd(c, last);
    } else {
      var o' := o + |EslBytes(l)|;
      LayoutSplits(b, o', rest);
      EslPlaced(b, o', rest[0]);
      Across(b, o, l, rest[0]);
      ItemsSplit(rest, 0);
      YieldsFrom(b, o', rest, 0, last);
      YieldsStep(c, At(b, o', rest[0], 0), Items(ls)[j + 1..], last);
    }
  }

  lemma LastIs(b: seq<byte>, o: nat, l: Esl)
    requires WellFormed(l)
    ensures |l.entries| > 0 && Last(b, o, l) == At(b, o, l, |l.entries| - 1)
  {
  }

  lemma ClosesBy(b: seq<byte>, o: nat, l: Esl, last: Outcome)
    requires WellFormed(l) && Placed(b, o, l) && Closes(b, o + Extent(l), last)
    ensures Step(Last(b, o, l), false).1 == last
  {
    hide Placed, Extent, Step, At, WellFormed;
  }

  lemma LayoutSplits(b: seq<byte>, o: nat, ls: seq<Esl>)
    requires ls != [] && Sizeable(ls) && Holds(b, o, Layout(ls))
    ensures WellFormed(ls[0]) && ls[0].entries != [] && Extent(ls[0]) < TWO32 && Sizeable(ls[1..])
    ensures Holds(b, o, EslBytes(ls[0])) && Holds(b, o + |EslBytes(ls[0])|, Layout(ls[1..]))
    ensures |Layout(ls)| == |EslBytes(ls[0])| + |Layout(ls[1..])|
    ensures ls[1..] == [] ==> Layout(ls[1..]) == []
    ensures ls[1..] != [] ==> |ls[1..][0].entries| > 0
  {
    hide EslBytes, Extent, Holds;
    HoldsSplit(b, o, EslBytes(ls[0]), Layout(ls[1..]));
    assert ls[0] in ls;
    if ls[1..] != [] {
      assert ls[1..][0] in ls;
    }
  }

  lemma {:induction false} ItemsSplit(ls: seq<Esl>, j: nat)
    requires ls != [] && j < |ls[0].entries|
    ensures |Items(ls)| == |ls[0].entries| + |Items(ls[1..])|
    ensures Items(ls)[j] == ItemOf(ls[0], j)
    ensures j + 1 < |ls[0].entries| ==> Items(ls)[j + 1] == ItemOf(ls[0], j + 1)
    ensures j + 1 == |ls[0].entries| ==> Items(ls)[j + 1..] == Items(ls[1..])
    ensures ls[1..] == [] ==> Items(ls[1..]) == []
  {
  }

  lemma YieldsStep(c: Cursor, c': Cursor, items: seq<Outcome>, last: Outcome)
    requires items != [] && Step(c, false) == (c', items[0]) && Yields(c', items[1..], last)
    ensures Yields(c, items, last)
  {
    hide Step;
  }

  lemma YieldsEnd(c: Cursor, last: Outcome)
    requires Step(c, false).1 == last
    ensures Yields(c, [], last)
  {
    hide Step;
  }

  lemma {:induction false} YieldsOnce(c: Cursor, items: seq<Outcome>, x: Outcome, y: Outcome)
    requires Yields(c, items, x) && Yields(c, items, y)
    ensures x == y
    decreases |items|
  {
    hide Step;
    if items != [] {
      YieldsOnce(Step(c, false).0, items[1..], x, y);
    }
  }

  lemma WalksTo(b: seq<byte>, ls: seq<Esl>, last: Outcome)
    requires ls != [] && Sizeable(ls) && |b| < TWO64 && Holds(b, 0, Layout(ls)) && Closes(b, |Layout(ls)|, last)
    ensures Yields(Start(b), Items(ls), last)
  {
    hide *;
    SizeableFormed(ls);
    LayoutSplits(b, 0, ls);
    EslPlaced(b, 0, ls[0]);
    Opening(b, ls[0]);
    ItemsSplit(ls, 0);
    YieldsFrom(b, 0, ls, 0, last);
    YieldsStep(Start(b), At(b, 0, ls[0], 0), Items(ls), last);
  }

  /** The iterator gives back exactly the entries of a well-formed buffer, and then ends as its size says. */
  lemma WalksOver(ls: seq<Esl>)
    requires ls != [] && Sizeable(ls) && |Layout(ls)| < TWO64
    ensures Yields(Start(Layout(ls)), Items(ls), Ending(|Layout(ls)|))
  {
    hide *;
    SizeableFormed(ls);
    var b := Layout(ls);
    WholeHolds(b);
    EndCloses(b);
    WalksTo(b, ls, Ending(|b|));
  }

  /** It reports the end after them if and only if the buffer is smaller than 4 GiB. */
  lemma WalksBack(ls: seq<Esl>)
    requires ls != [] && Sizeable(ls) && |Layout(ls)| < TWO64
    ensures Yields(Start(Layout(ls)), Items(ls), Done) <==> |Layout(ls)| < TWO32
  {
    WalksOver(ls);
    hide Yields, Layout, Items, WellFormed, Extent, Start;
    var c := Start(Layout(ls));
    if Yields(c, Items(ls), Done) {
      YieldsOnce(c, Items(ls), Done, Ending(|Layout(ls)|));
    }
  }

  // ---------- what may follow the lists ----------

  /** What is at `e` stops the list level, whatever list ends there. */
  lemma StopCloses(b: seq<byte>, o: nat, l: Esl, e: nat)
    requires WellFormed(l) && Placed(b, o, l) && o + Extent(l) == e < |b|
    ensures var c := Last(b, o, l).(offset := e, i := 0);
      var r := Step(Last(b, o, l), false).1;
      if |b| < e + 28 then r == PastEnd
      else
        var (c2, stop) := Arrive(c.(esl := Some(e)), e, false);
        r == if stop.Some? then stop.value else FirstEntry(c2).1
  {
    hide *;
    LastStep(b, o, l);
    MovesOn(b, o, l, Last(b, o, l).(i := 0));
  }

  lemma MovesOn(b: seq<byte>, o: nat, l: Esl, c: Cursor)
    requires WellFormed(l) && Placed(b, o, l) && o + Extent(l) < |b|
    requires c.buf == b && c.offset == o && c.esl == Some(o)
    ensures var e := o + Extent(l);
      |b| < TWO64 && ListStep(c, false) ==
        if |b| < e + 28 then (c.(offset := e), Some(PastEnd)) else Arrive(c.(offset := e, esl := Some(e)), e, false)
  {
    NoCorrection(b, o, o);
    hide Kind, HeaderSize, SigSize, ListSize, AllZero, Slot, Arrive, Extent, Size, Corrected;
  }

  /** Fewer than 28 bytes behind the lists are too short for a header; of more than that, zeros mean the end. */
  lemma ZerosClose(b: seq<byte>, e: nat)
    requires e < |b| && forall i :: e <= i < |b| ==> b[i] == 0
    ensures Closes(b, e, if |b| < e + 28 then PastEnd else Done)
  {
    hide Step, Last, Placed, Extent, WellFormed;
    var last := if |b| < e + 28 then PastEnd else Done;
    forall o: nat, l: Esl | WellFormed(l) && Placed(b, o, l) && o + Extent(l) == e
      ensures Step(Last(b, o, l), false).1 == last {
      ZerosStop(b, o, l, e);
    }
  }

  lemma ZerosStop(b: seq<byte>, o: nat, l: Esl, e: nat)
    requires WellFormed(l) && Placed(b, o, l) && o + Extent(l) == e < |b|
    requires forall i :: e <= i < |b| ==> b[i] == 0
    ensures Step(Last(b, o, l), false).1 == if |b| < e + 28 then PastEnd else Done
  {
    StopCloses(b, o, l, e);
    LastStep(b, o, l);
    hide Step, Last, Placed, Extent, FirstEntry, Corrected, WellFormed;
    if |b| >= e + 28 {
      assert AllZero(b[e..e + 28]);
    }
  }

  lemma PrefixHolds(s: seq<byte>, t: seq<byte>)
    ensures Holds(s + t, 0, s)
  {
  }

  /** Behind well-formed lists at least 28 zeros end the walk, whatever the size of the file; fewer make the iterator read
      past it. */
  lemma WalksPadded(ls: seq<Esl>, n: nat)
    requires ls != [] && Sizeable(ls) && n > 0 && |Layout(ls)| + n < TWO64
    ensures Yields(Start(Layout(ls) + Zeros(n)), Items(ls), if n < 28 then PastEnd else Done)
  {
    hide *;
    SizeableFormed(ls);
    var s := Layout(ls);
    var b := s + Zeros(n);
    ZerosBehind(s, n);
    PrefixHolds(s, Zeros(n));
    ZerosClose(b, |s|);
    WalksTo(b, ls, if n < 28 then PastEnd else Done);
  }

  lemma ZerosBehind(s: seq<byte>, n: nat)
    ensures |s + Zeros(n)| == |s| + n && forall i :: |s| <= i < |s| + n ==> (s + Zeros(n))[i] == 0
  {
  }

  /** The list at `e` does not divide into entries of its size. */
  predicate Leftover(b: seq<byte>, e: nat) {
    && e + 28 <= |b| < TWO64 && 28 + HeaderSize(b, e) <= ListSize(b, e) <= |b| - e
    && SigSize(b, e) >= 1 && (ListSize(b, e) - 28 - HeaderSize(b, e)) % SigSize(b, e) != 0
  }

  lemma LeftoverStops(b: seq<byte>, c: Cursor, e: nat)
    requires Leftover(b, e) && c.buf == b && c.offset == e && c.esl == Some(e)
    ensures var (c2, stop) := Arrive(c, e, false); stop.None? && FirstEntry(c2).1 == Failed(false)
  {
    HeadNotZero(b, e);
    NoCorrection(b, e, e);
    hide HeaderSize, ListSize, SigSize, AllZero, Corrected, Under;
    assert Arrive(c, e, false) == (c.(esd := Some(e + 28 + HeaderSize(b, e))), None);
    hide Arrive;
    LeftoverEntry(b, c.(esd := Some(e + 28 + HeaderSize(b, e))), e);
  }

  lemma LeftoverEntry(b: seq<byte>, c: Cursor, e: nat)
    requires Leftover(b, e) && c.buf == b && c.esl == Some(e)
    ensures FirstEntry(c).1 == Failed(false)
  {
    hide HeaderSize, ListSize, SigSize, Under;
    assert Payload(b, e) == ListSize(b, e) - 28 - HeaderSize(b, e);
  }

  /** Such a list is refused, first in the file or behind well-formed ones. */
  lemma LeftoverRefused(ls: seq<Esl>, b: seq<byte>)
    requires Sizeable(ls) && Holds(b, 0, Layout(ls)) && Leftover(b, |Layout(ls)|)
    ensures Yields(Start(b), Items(ls), Failed(false))
  {
    var e := |Layout(ls)|;
    if ls == [] {
      FirstRefused(b);
    } else {
      LeftoverCloses(b, e);
      hide *;
      LeftoverSize(b, e);
      WalksTo(b, ls, Failed(false));
    }
  }

  lemma LeftoverSize(b: seq<byte>, e: nat)
    requires Leftover(b, e)
    ensures |b| < TWO64 && e < |b|
  {
    hide HeaderSize, ListSize, SigSize;
  }

  lemma LeftoverCloses(b: seq<byte>, e: nat)
    requires Leftover(b, e)
    ensures Closes(b, e, Failed(false))
  {
    hide Step, Last, Placed, Extent, WellFormed, Leftover;
    forall o: nat, l: Esl | WellFormed(l) && Placed(b, o, l) && o + Extent(l) == e
      ensures Step(Last(b, o, l), false).1 == Failed(false) {
      LeftoverStop(b, o, l, e);
    }
  }

  lemma LeftoverStop(b: seq<byte>, o: nat, l: Esl, e: nat)
    requires Leftover(b, e) && WellFormed(l) && Placed(b, o, l) && o + Extent(l) == e
    ensures Step(Last(b, o, l), false).1 == Failed(false)
  {
    StopCloses(b, o, l, e);
    LastStep(b, o, l);
    LeftoverStops(b, Last(b, o, l).(offset := e, i := 0, esl := Some(e)), e);
    hide Step, Last, Placed, Extent, FirstEntry, Arrive, HeaderSize, ListSize, SigSize, WellFormed;
  }

  lemma FirstRefused(b: seq<byte>)
    requires Leftover(b, 0)
    ensures Yields(Start(b), [], Failed(false))
  {
    var c := Cursor(b, 0, Some(0), None, 0, 0);
    LeftoverStops(b, c, 0);
    NoCorrection(b, 0, 0);
    hide HeaderSize, ListSize, SigSize, Arrive, FirstEntry, Corrected;
    assert Corrected(b, 0, 0, false) == Some(b);
    assert ListStep(Start(b).(i := 0), false) == Arrive(c, 0, false);
  }

  // ---------- a buffer of 4 GiB ----------

  /** A list of a little more than 2 GiB. */
  const MANY := 44_739_243

  function Bulk(kind: Guid, e: Entry): (l: Esl) { Esl(kind, seq(MANY, _ => e)) }

  lemma BulkSize(kind: Guid, e: Entry)
    requires |e.data| == 32
    ensures var l := Bulk(kind, e); WellFormed(l) && Extent(l) == 2_147_483_692 && |EslBytes(l)| == 2_147_483_692
  {
    var l := Bulk(kind, e);
    assert l.entries[0] == e && |l.entries| == MANY;
    assert WellFormed(l) && Size(l) == 48;
    SignaturesLength(l.entries, 48);
    hide Signatures, Head;
  }

  /** Two of them, of 32-byte hashes: after the last entry the iterator reads past the buffer. */
  lemma WalksPastEnd(kind: Guid, e: Entry)
    requires |e.data| == 32
    ensures var ls := [Bulk(kind, e), Bulk(kind, e)];
      && Sizeable(ls) && |Layout(ls)| == 4_294_967_384
      && Yields(Start(Layout(ls)), Items(ls), PastEnd) && !Yields(Start(Layout(ls)), Items(ls), Done)
  {
    BulkSize(kind, e);
    var l := Bulk(kind, e);
    hide Bulk, EslBytes, WellFormed, Extent, Yields, Items, Start;
    assert [l, l][1..] == [l] && [l][1..] == [];
    assert Layout([l, l]) == EslBytes(l) + Layout([l]);
    hide Layout;
    WalksOver([l, l]);
    WalksBack([l, l]);
  }

  // ---------- a list of 4 GiB ----------

  /** So many entries of 48 bytes make a list of 2^32 + 12 bytes. */
  const WRAPPED := 89_478_485

  /** A size field that cannot be that of a list stops the walk at once. */
  lemma StopsAtOnce(b: seq<byte>)
    requires 28 <= |b| < TWO64 && 0 < ListSize(b, 0) < 28 && SigSize(b, 0) >= 1
    ensures Step(Start(b), false).1 == Failed(false)
  {
    var c := Cursor(b, 0, Some(0), None, 0, 0);
    ZeroHeader(b);
    hide ListSize, SigSize, HeaderSize, AllZero, Kind;
    assert Corrected(b, 0, 0, false) == Some(b);
    assert Arrive(c, 0, false) == (c.(esd := Some(28 + HeaderSize(b, 0))), None);
    hide Arrive, Corrected;
    assert ListStep(Start(b).(i := 0), false) == (c.(esd := Some(28 + HeaderSize(b, 0))), None);
  }

  lemma ZeroHeader(b: seq<byte>)
    requires |b| >= 28
    ensures AllZero(b[0..28]) ==> ListSize(b, 0) == 0
  {
    if AllZero(b[0..28]) {
      assert forall i :: 16 <= i < 20 ==> b[i] == b[0..28][i];
      assert b[16..20] == [0, 0, 0, 0];
      ZeroWord();
    }
  }

  lemma ZeroWord()
    ensures Get([0, 0, 0, 0]) == 0
  {
    assert Put(0, 4) == [0, 0, 0, 0];
    Field32(0);
  }

  lemma WrappedBytes(l: Esl)
    requires WellFormed(l) && Size(l) == 48 && |l.entries| == WRAPPED
    ensures var b := Layout([l]);
      |b| == TWO32 + 12 && b == Head(l.kind, WRAPPED, 48) + Signatures(l.entries)
  {
    EslLength(l);
    hide Signatures, Head;
    assert [l][1..] == [];
    assert Layout([l]) == EslBytes(l) + Layout([l][1..]);
  }

  lemma WrappedNumbers()
    ensures U32(28 + WRAPPED * 48) == 12 && U32(48) == 48 && TWO32 + 12 < TWO64
  {
  }

  /** The size field of such a list is 12, and nothing of it is handed out. */
  lemma SizeWraps(l: Esl)
    requires WellFormed(l) && Size(l) == 48 && |l.entries| == WRAPPED
    ensures |Layout([l])| == TWO32 + 12 && Step(Start(Layout([l])), false).1 == Failed(false)
  {
    hide *;
    WrappedNumbers();
    WrappedBytes(l);
    var b := Layout([l]);
    WholeHolds(b);
    HoldsSplit(b, 0, Head(l.kind, WRAPPED, 48), Signatures(l.entries));
    HeadParts(b, 0, l.kind, WRAPPED, 48);
    StopsAtOnce(b);
  }
}
