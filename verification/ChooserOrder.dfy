/**
  The order in which the chooser prints files: pe_cmp is lexicographic on seven keys, so the printed
  sequence does not depend on the order of the arguments.
 */
module ChooserOrder {
  import opened Bytes
  import opened Guids
  import opened Sorting
  import opened Chooser

  datatype Scored = Scored(filename: seq<byte>, score: Score)

  /** get_highest_hash_secbits. */
  function HashBits(s: Score): (n: u32) {
    if RevokedByHash(s) then 0
    else if s.trusted512 then 256
    else if s.trusted384 then 192
    else if s.trusted256 then 128
    else 0
  }

  function CompareValidities(a: Score, b: Score): (r: int) {
    if a.notAfter.Some? && b.notAfter.None? then -1
    else if a.notAfter.None? && b.notAfter.Some? then 1
    else
      var rc := TimeCmp(a.notAfter, b.notAfter);
      if rc < 0 then 1
      else if rc > 0 then -1
      else if a.notBefore.Some? && b.notBefore.None? then -1
      else if a.notBefore.None? && b.notBefore.Some? then 1
      else
        var rc := TimeCmp(b.notBefore, a.notBefore);
        if rc < 0 then 1 else if rc > 0 then -1 else 0
  }

  /** pe_cmp; differences of 32-bit strengths are taken as int. */
  function PeCmp(a: Scored, b: Scored): (r: int) {
    var s, t := a.score, b.score;
    if !RevokedByHash(t) && RevokedByHash(s) then -1
    else if RevokedByHash(t) && !RevokedByHash(s) then 1
    else if TrustedByHash(t) && !TrustedByHash(s) then 1
    else if !TrustedByHash(t) && TrustedByHash(s) then -1
    else if Int32(HashBits(t) - HashBits(s)) != 0 then Int32(HashBits(t) - HashBits(s))
    else if Int32(t.secbits - s.secbits) != 0 then Int32(t.secbits - s.secbits)
    else if CompareValidities(s, t) != 0 then CompareValidities(s, t)
    else Lex(a.filename, b.filename)
  }

  // ---------- the keys ----------

  datatype Key = Key(
    unrevoked: int, untrusted: int, hashBits: int, secbits: int, noAfter: int, after: int, noBefore: int,
    before: int, name: seq<byte>)

  function Time(t: Option<int>): (n: int) { if t.Some? then t.value else 0 }

  function Missing(t: Option<int>): (n: int) { if t.Some? then 0 else 1 }

  /** Smaller is printed earlier. */
  function KeyOf(x: Scored): (k: Key) {
    var s := x.score;
    Key(if RevokedByHash(s) then 0 else 1, if TrustedByHash(s) then 0 else 1, -(HashBits(s) as int), -(s.secbits as int),
        Missing(s.notAfter), -Time(s.notAfter), Missing(s.notBefore), Time(s.notBefore), x.filename)
  }

  function Then(r: int, rest: int): (x: int) { if r != 0 then r else rest }

  function Validity(a: Key, b: Key): (r: int) {
    Then(IntCmp(a.noAfter, b.noAfter), Then(IntCmp(a.after, b.after),
      Then(IntCmp(a.noBefore, b.noBefore), IntCmp(a.before, b.before))))
  }

  function Hashes(a: Key, b: Key): (r: int) {
    Then(IntCmp(a.unrevoked, b.unrevoked), Then(IntCmp(a.untrusted, b.untrusted), IntCmp(a.hashBits, b.hashBits)))
  }

  function KeyOrder(a: Key, b: Key): (r: int) {
    Then(Hashes(a, b), Then(IntCmp(a.secbits, b.secbits), Then(Validity(a, b), Lex(a.name, b.name))))
  }

  lemma ValiditiesAgree(a: Scored, b: Scored)
    ensures CompareValidities(a.score, b.score) == Validity(KeyOf(a), KeyOf(b))
  {
    hide RevokedByHash, TrustedByHash, HashBits;
  }

  lemma HashesAgree(a: Scored, b: Scored)
    ensures var s, t := a.score, b.score;
      SameSign(Hashes(KeyOf(a), KeyOf(b)),
        if !RevokedByHash(t) && RevokedByHash(s) then -1
        else if RevokedByHash(t) && !RevokedByHash(s) then 1
        else if TrustedByHash(t) && !TrustedByHash(s) then 1
        else if !TrustedByHash(t) && TrustedByHash(s) then -1
        else Int32(HashBits(t) - HashBits(s)))
  {
    assert HashBits(a.score) <= 256 && HashBits(b.score) <= 256;
    hide RevokedByHash, TrustedByHash, HashBits;
  }

  /** The difference of two strengths survives the conversion to int. */
  predicate NoWrap(a: Scored, b: Scored) {
    -0x8000_0000 <= b.score.secbits - a.score.secbits < 0x8000_0000
  }

  lemma StrengthsAgree(a: Scored, b: Scored)
    ensures SameSign(Int32(b.score.secbits - a.score.secbits), IntCmp(KeyOf(a).secbits, KeyOf(b).secbits)) <==> NoWrap(a, b)
    ensures Int32(b.score.secbits - a.score.secbits) == 0 <==> a.score.secbits == b.score.secbits
  {
    hide HashBits, RevokedByHash, TrustedByHash;
  }

  /** pe_cmp agrees with the key order exactly when a hash decides or the strengths do not wrap. */
  lemma PeCmpIsKeyOrder(a: Scored, b: Scored)
    ensures SameSign(PeCmp(a, b), KeyOrder(KeyOf(a), KeyOf(b))) <==>
      Hashes(KeyOf(a), KeyOf(b)) != 0 || NoWrap(a, b)
  {
    ValiditiesAgree(a, b);
    HashesAgree(a, b);
    StrengthsAgree(a, b);
    KeyNames(a);
    KeyNames(b);
    hide RevokedByHash, TrustedByHash, HashBits, CompareValidities, Validity, Hashes, KeyOf, Int32, Lex, NoWrap;
  }

  lemma KeyNames(x: Scored)
    ensures KeyOf(x).name == x.filename && KeyOf(x).secbits == -(x.score.secbits as int)
  {
  }

  /** Strengths from 2^31 on make the order circular. */
  lemma CircularStrengths() returns (a: Scored, b: Scored, c: Scored)
    ensures PeCmp(c, b) < 0 && PeCmp(b, a) < 0 && PeCmp(a, c) < 0
    ensures b.score.secbits > 256 && c.score.secbits > 256 && !Bounded([a, b, c])
  {
    var zero := Score(false, false, false, false, false, false, 0, None, None);
    a := Scored([], zero);
    b := Scored([], zero.(secbits := 0x6000_0000));
    c := Scored([], zero.(secbits := 0xc000_0000));
    assert [a, b, c][2] == c;
  }

  // ---------- the key order is a total order ----------

  lemma KeyMirror(a: Key, b: Key)
    ensures KeyOrder(a, b) <= 0 || KeyOrder(b, a) <= 0
    ensures KeyOrder(a, b) <= 0 && KeyOrder(b, a) <= 0 ==> a == b
  {
    hide Lex;
    LexMirror(a.name, b.name);
    LexZero(a.name, b.name);
  }

  /** The keys from one on. */
  function Rest(a: Key, b: Key, i: nat): (r: int)
    requires i <= 8
    decreases 8 - i
  {
    if i == 8 then Lex(a.name, b.name) else Then(IntCmp(Field(a, i), Field(b, i)), Rest(a, b, i + 1))
  }

  function Field(k: Key, i: nat): (n: int) {
    match i
    case 0 => k.unrevoked
    case 1 => k.untrusted
    case 2 => k.hashBits
    case 3 => k.secbits
    case 4 => k.noAfter
    case 5 => k.after
    case 6 => k.noBefore
    case _ => k.before
  }

  lemma RestStep(a: Key, b: Key, i: nat)
    requires i < 8
    ensures Rest(a, b, i) == Then(IntCmp(Field(a, i), Field(b, i)), Rest(a, b, i + 1))
  {
  }

  lemma RestIsOrder(a: Key, b: Key)
    ensures Rest(a, b, 0) == KeyOrder(a, b)
  {
    RestStep(a, b, 0);
    RestStep(a, b, 1);
    RestStep(a, b, 2);
    RestStep(a, b, 3);
    RestStep(a, b, 4);
    RestStep(a, b, 5);
    RestStep(a, b, 6);
    RestStep(a, b, 7);
    assert Rest(a, b, 8) == Lex(a.name, b.name);
    hide Rest, Lex, IntCmp;
  }

  lemma {:induction false} RestTransitive(a: Key, b: Key, c: Key, i: nat)
    requires i <= 8 && Rest(a, b, i) <= 0 && Rest(b, c, i) <= 0
    ensures Rest(a, c, i) <= 0
    decreases 8 - i
  {
    if i == 8 {
      LexTransitive(a.name, b.name, c.name);
    } else {
      hide Lex, Field;
      if Rest(a, b, i + 1) <= 0 && Rest(b, c, i + 1) <= 0 {
        RestTransitive(a, b, c, i + 1);
      }
    }
  }

  lemma KeyTransitive(a: Key, b: Key, c: Key)
    requires KeyOrder(a, b) <= 0 && KeyOrder(b, c) <= 0
    ensures KeyOrder(a, c) <= 0
  {
    RestIsOrder(a, b);
    RestIsOrder(b, c);
    RestIsOrder(a, c);
    RestTransitive(a, b, c, 0);
  }

  // ---------- sorting and printing ----------

  ghost predicate Bounded(xs: seq<Scored>) {
    forall x :: x in xs ==> x.score.secbits < 0x8000_0000
  }

  lemma BoundedAgrees(xs: seq<Scored>, a: Scored, b: Scored)
    requires Bounded(xs) && a in xs && b in xs
    ensures SameSign(PeCmp(a, b), KeyOrder(KeyOf(a), KeyOf(b)))
  {
    PeCmpIsKeyOrder(a, b);
    hide PeCmp, KeyOrder, KeyOf, Hashes;
  }

  /** pe_cmp is a total preorder on files whose strengths are below 2^31. */
  lemma PeCmpConsistent(xs: seq<Scored>)
    requires Bounded(xs)
    ensures Consistent(xs, PeCmp)
  {
    hide PeCmp, KeyOrder, KeyOf, Bounded;
    forall x, y | x in xs && y in xs ensures PeCmp(x, y) <= 0 || PeCmp(y, x) <= 0 {
      BoundedAgrees(xs, x, y);
      BoundedAgrees(xs, y, x);
      KeyMirror(KeyOf(x), KeyOf(y));
    }
    forall x, y, z | x in xs && y in xs && z in xs && PeCmp(x, y) <= 0 && PeCmp(y, z) <= 0 ensures PeCmp(x, z) <= 0 {
      BoundedAgrees(xs, x, y);
      BoundedAgrees(xs, y, z);
      BoundedAgrees(xs, x, z);
      KeyTransitive(KeyOf(x), KeyOf(y), KeyOf(z));
    }
  }

  /** What the last loop of main prints. */
  function Printed(xs: seq<Scored>): (names: seq<seq<byte>>) {
    if xs == [] then []
    else Printed(xs[..|xs| - 1]) + if Prints(xs[|xs| - 1].score) then [xs[|xs| - 1].filename] else []
  }

  predicate KeyPrints(k: Key) { k.unrevoked != 0 && (k.untrusted == 0 || k.secbits != 0) }

  function PrintedKeys(ks: seq<Key>): (names: seq<seq<byte>>) {
    if ks == [] then []
    else PrintedKeys(ks[..|ks| - 1]) + if KeyPrints(ks[|ks| - 1]) then [ks[|ks| - 1].name] else []
  }

  lemma {:induction false} PrintedByKeys(xs: seq<Scored>)
    ensures Printed(xs) == PrintedKeys(Mapped(xs, KeyOf))
    decreases |xs|
  {
    if xs != [] {
      var k := |xs| - 1;
      PrintedByKeys(xs[..k]);
      assert xs == xs[..k] + [xs[k]];
      MappedAppend(xs[..k], [xs[k]], KeyOf);
      assert Mapped([xs[k]], KeyOf) == [KeyOf(xs[k])];
      assert KeyPrints(KeyOf(xs[k])) == Prints(xs[k].score);
      var ks := Mapped(xs, KeyOf);
      assert ks[..|ks| - 1] == Mapped(xs[..k], KeyOf);
      hide Mapped, HashBits, KeyPrints, Prints;
    }
  }

  lemma KeysInOrder(xs: seq<Scored>, rs: seq<Scored>)
    requires Bounded(xs) && SortOf(rs, xs, PeCmp)
    ensures InOrder(Mapped(rs, KeyOf), KeyOrder)
  {
    PeCmpConsistent(xs);
    SameMembers(rs, xs);
    hide PeCmp, KeyOrder, KeyOf, Bounded, Mapped, Consistent;
    var ks := Mapped(rs, KeyOf);
    forall i, j | 0 <= i < j < |ks| ensures KeyOrder(ks[i], ks[j]) <= 0 {
      MappedAt(rs, KeyOf, i);
      MappedAt(rs, KeyOf, j);
      assert rs[i] in rs && rs[j] in rs && PeCmp(rs[i], rs[j]) <= 0;
      BoundedAgrees(xs, rs[i], rs[j]);
    }
  }

  /** The printed sequence is the same for every permutation of the files and every correct sort. */
  lemma OrderOfArgumentsInvisible(xs: seq<Scored>, ys: seq<Scored>, rs: seq<Scored>, ss: seq<Scored>)
    requires multiset(xs) == multiset(ys) && Bounded(xs)
    requires SortOf(rs, xs, PeCmp) && SortOf(ss, ys, PeCmp)
    ensures Printed(rs) == Printed(ss)
  {
    SameMembers(xs, ys);
    KeysInOrder(xs, rs);
    KeysInOrder(ys, ss);
    hide Consistent, InOrder, PeCmp, Bounded, KeyOrder, KeyOf, Printed, Mapped;
    var a, b := Mapped(rs, KeyOf), Mapped(ss, KeyOf);
    MappedPermuted(rs, ss, KeyOf);
    forall x, y | x in a && y in a && KeyOrder(x, y) <= 0 && KeyOrder(y, x) <= 0 ensures x == y {
      KeyMirror(x, y);
    }
    InOrderUnique(a, b, KeyOrder);
    PrintedByKeys(rs);
    PrintedByKeys(ss);
  }

  // ---------- the end of main ----------

  ghost function Scorer(m: Match, ctx: Context): (f: Pe -> Scored) {
    (pe: Pe) => Scored(pe.filename, ScoreOf(m, ctx, pe))
  }

  ghost function ScoredAll(m: Match, ctx: Context, files: seq<Pe>): (xs: seq<Scored>)
    ensures |xs| == |files|
  {
    Mapped(files, Scorer(m, ctx))
  }

  /** What main may print for these files. */
  ghost predicate Chosen(m: Match, ctx: Context, files: seq<Pe>, names: seq<seq<byte>>) {
    exists rs :: SortOf(rs, ScoredAll(m, ctx, files), PeCmp) && names == Printed(rs)
  }

  lemma ScoredStep(m: Match, ctx: Context, files: seq<Pe>, i: nat)
    requires i < |files|
    ensures ScoredAll(m, ctx, files[..i + 1])
         == ScoredAll(m, ctx, files[..i]) + [Scored(files[i].filename, ScoreOf(m, ctx, files[i]))]
  {
    hide ScoreOf;
    assert files[..i + 1] == files[..i] + [files[i]];
    MappedAppend(files[..i], [files[i]], Scorer(m, ctx));
    assert Mapped([files[i]], Scorer(m, ctx)) == [Scorer(m, ctx)(files[i])];
  }

  /** Loading, scoring, sorting and printing. */
  method Choose(m: Match, ctx: Context, files: seq<Pe>) returns (names: seq<seq<byte>>)
    ensures Chosen(m, ctx, files, names)
  {
    hide ScoreOf, PeCmp, Prints, SortOf, ScoredAll, LoadTimes;
    var xs: seq<Scored> := [];
    for i := 0 to |files|
      invariant xs == ScoredAll(m, ctx, files[..i])
    {
      var f := new PeFile(files[i]);
      f.UpdateSecurity(m, ctx);
      ScoreIs(m, ctx, files[i]);
      ScoredStep(m, ctx, files, i);
      xs := xs + [Scored(files[i].filename, f.Current())];
    }
    assert files[..|files|] == files;
    var rs := QSort(xs, PeCmp);
    names := [];
    for i := 0 to |rs|
      invariant names == Printed(rs[..i])
    {
      assert rs[..i + 1][..i] == rs[..i];
      if Prints(rs[i].score) {
        names := names + [rs[i].filename];
      }
    }
    assert rs[..|rs|] == rs;
  }

  lemma ScoreIs(m: Match, ctx: Context, pe: Pe)
    ensures ScoreOf(m, ctx, pe) == ScoreFrom(m, ctx, pe, LoadTimes(pe.sigs))
  {
    hide ScoreFrom;
  }

  lemma StoredBounded(m: Match, ctx: Context, files: seq<Pe>)
    requires forall pe :: pe in files ==> Stored(pe)
    ensures Bounded(ScoredAll(m, ctx, files))
  {
    var xs := ScoredAll(m, ctx, files);
    hide Stored, ScoreOf, Mapped;
    forall x | x in xs ensures x.score.secbits < 0x8000_0000 {
      var i :| 0 <= i < |xs| && xs[i] == x;
      MappedAt(files, Scorer(m, ctx), i);
      assert files[i] in files;
      StoredScore(m, ctx, files[i]);
    }
  }

  /** With the strengths the program stores, what is printed does not depend on the order of the arguments. */
  lemma ChosenOnce(
      m: Match, ctx: Context, files: seq<Pe>, files': seq<Pe>, names: seq<seq<byte>>, names': seq<seq<byte>>)
    requires multiset(files) == multiset(files') && (forall pe :: pe in files ==> Stored(pe))
    requires Chosen(m, ctx, files, names) && Chosen(m, ctx, files', names')
    ensures names == names'
  {
    hide Stored, SortOf, Bounded, Printed, PeCmp;
    var rs :| SortOf(rs, ScoredAll(m, ctx, files), PeCmp) && names == Printed(rs);
    var ss :| SortOf(ss, ScoredAll(m, ctx, files'), PeCmp) && names' == Printed(ss);
    MappedPermuted(files, files', Scorer(m, ctx));
    StoredBounded(m, ctx, files);
    OrderOfArgumentsInvisible(ScoredAll(m, ctx, files), ScoredAll(m, ctx, files'), rs, ss);
  }

  // ---------- which files come first ----------

  /** Of two files in the sorted sequence the preferred one is first. */
  lemma PreferredFirst(xs: seq<Scored>, rs: seq<Scored>, i: nat, j: nat)
    requires Bounded(xs) && SortOf(rs, xs, PeCmp) && i < |rs| && j < |rs| && PeCmp(rs[i], rs[j]) < 0
    ensures i < j
  {
    PeCmpConsistent(xs);
    SameMembers(rs, xs);
    hide PeCmp, KeyOrder, KeyOf, Bounded, Consistent;
    if j <= i {
      BoundedAgrees(xs, rs[i], rs[j]);
      BoundedAgrees(xs, rs[j], rs[i]);
      KeyMirror(KeyOf(rs[i]), KeyOf(rs[j]));
      KeySelf(KeyOf(rs[i]));
    }
  }

  lemma KeySelf(k: Key)
    ensures KeyOrder(k, k) == 0
  {
    LexZero(k.name, k.name);
    hide Lex;
  }

  lemma HashScores(m: Match, ctx: Context, pe: Pe)
    ensures var r := ScoreOf(m, ctx, pe);
      && (RevokedByHash(r) <==> HashIn(pe, ctx.dbxDigests)) && (TrustedByHash(r) <==> HashIn(pe, ctx.dbDigests))
      && r.trusted512 == (pe.sha512 in ctx.dbDigests) && r.trusted384 == (pe.sha384 in ctx.dbDigests)
      && r.trusted256 == (pe.sha256 in ctx.dbDigests)
  {
    hide TrustedSigs, Considered, LoadTimes, Absorbed, Weakest;
  }

  /** A file whose SHA-512 digest is in db precedes every one of which only shorter digests are, or none; and so on down
      to SHA-256. */
  lemma LongerHashFirst(m: Match, ctx: Context, f: Pe, g: Pe)
    requires !HashIn(f, ctx.dbxDigests) && !HashIn(g, ctx.dbxDigests)
    requires
      || (f.sha512 in ctx.dbDigests && g.sha512 !in ctx.dbDigests)
      || (f.sha384 in ctx.dbDigests && g.sha512 !in ctx.dbDigests && g.sha384 !in ctx.dbDigests)
      || (f.sha256 in ctx.dbDigests && !HashIn(g, ctx.dbDigests))
    ensures PeCmp(Scored(f.filename, ScoreOf(m, ctx, f)), Scored(g.filename, ScoreOf(m, ctx, g))) < 0
  {
    HashScores(m, ctx, f);
    HashScores(m, ctx, g);
    hide ScoreOf, Lex, CompareValidities;
  }

  /** Without digests in either list, the file whose every trusted signature is stronger than some trusted one of the
      other precedes it. */
  lemma StrongerSignatureFirst(m: Match, ctx: Context, f: Pe, g: Pe, weak: Sig)
    requires Stored(f) && Stored(g)
    requires !HashIn(f, ctx.dbxDigests) && !HashIn(f, ctx.dbDigests)
    requires !HashIn(g, ctx.dbxDigests) && !HashIn(g, ctx.dbDigests)
    requires TrustedSigs(m, ctx, Considered(f)) != [] && weak in TrustedSigs(m, ctx, Considered(g))
    requires forall s :: s in TrustedSigs(m, ctx, Considered(f)) ==>
      (weak.md < s.md && weak.md < s.pk) || (weak.pk < s.md && weak.pk < s.pk)
    ensures PeCmp(Scored(f.filename, ScoreOf(m, ctx, f)), Scored(g.filename, ScoreOf(m, ctx, g))) < 0
  {
    HashScores(m, ctx, f);
    HashScores(m, ctx, g);
    ScoresStronger(m, ctx, f, g, weak);
    StoredScore(m, ctx, f);
    hide ScoreOf, TrustedSigs, Considered, HashIn, Stored;
    StrongerFirst(Scored(f.filename, ScoreOf(m, ctx, f)), Scored(g.filename, ScoreOf(m, ctx, g)));
  }

  lemma StrongerFirst(a: Scored, b: Scored)
    requires !RevokedByHash(a.score) && !TrustedByHash(a.score) && !RevokedByHash(b.score) && !TrustedByHash(b.score)
    requires b.score.secbits < a.score.secbits < 0x8000_0000
    ensures PeCmp(a, b) < 0
  {
    NoHashBits(a.score);
    NoHashBits(b.score);
    hide Lex, CompareValidities, HashBits, RevokedByHash, TrustedByHash;
  }

  lemma ScoresStronger(m: Match, ctx: Context, f: Pe, g: Pe, weak: Sig)
    requires Stored(f) && Stored(g)
    requires TrustedSigs(m, ctx, Considered(f)) != [] && weak in TrustedSigs(m, ctx, Considered(g))
    requires forall s :: s in TrustedSigs(m, ctx, Considered(f)) ==>
      (weak.md < s.md && weak.md < s.pk) || (weak.pk < s.md && weak.pk < s.pk)
    ensures ScoreOf(m, ctx, g).secbits < ScoreOf(m, ctx, f).secbits
  {
    hide *;
    StoredKnown(m, ctx, f);
    StoredKnown(m, ctx, g);
    ScoreIsLeast(m, ctx, f, LoadTimes(f.sigs));
    ScoreIsLeast(m, ctx, g, LoadTimes(g.sigs));
    ScoreIs(m, ctx, f);
    ScoreIs(m, ctx, g);
  }

  /** Among files of the same hash and signature strength, the one that lasts longer is first, then the one that started
      earlier, a time before none; and then the names decide. */
  lemma TimesDecide(a: Scored, b: Scored)
    requires var s, t := a.score, b.score;
      && RevokedByHash(s) == RevokedByHash(t) && TrustedByHash(s) == TrustedByHash(t)
      && HashBits(s) == HashBits(t) && s.secbits == t.secbits
    ensures var s, t := a.score, b.score;
      && (s.notAfter.Some? && (t.notAfter.None? || s.notAfter.value > t.notAfter.value) ==> PeCmp(a, b) < 0)
      && (s.notAfter == t.notAfter && s.notBefore.Some? && (t.notBefore.None? || s.notBefore.value < t.notBefore.value) ==>
           PeCmp(a, b) < 0)
      && (s.notAfter == t.notAfter && s.notBefore == t.notBefore ==> PeCmp(a, b) == Lex(a.filename, b.filename))
  {
    hide Lex, HashBits, RevokedByHash, TrustedByHash;
  }

  lemma StoredKnown(m: Match, ctx: Context, pe: Pe)
    requires Stored(pe) && TrustedSigs(m, ctx, Considered(pe)) != []
    ensures Known(TrustedSigs(m, ctx, Considered(pe)))
  {
    ConsideredTrusted(m, ctx, pe);
    hide TrustedSigs, Considered;
    var ts := TrustedSigs(m, ctx, Considered(pe));
    assert ts[0] in ts;
  }

  // ---------- what untrusted times do ----------

  lemma TwoTrusted(m: Match, ctx: Context, a: Sig, b: Sig)
    requires Trusted(m, ctx, a) && !Trusted(m, ctx, b)
    ensures TrustedSigs(m, ctx, [a, b]) == [a] && TrustedSigs(m, ctx, [a]) == [a]
  {
    hide Trusted, TrustedSigs, Absorbed;
    var ss := [a, b];
    assert ss[..0] == [] && ss[..1] == [a] && ss[..2] == ss;
    NoneTrusted(m, ctx, ss[..0], UNTIMED);
    TrustedStep(m, ctx, ss, 0, UNTIMED);
    TrustedStep(m, ctx, ss, 1, UNTIMED);
  }

  lemma LoadedTwo(a: Sig, b: Sig)
    ensures LoadTimes([a]) == LoadOne(Times(None, None), a)
    ensures LoadTimes([a, b]) == LoadOne(LoadOne(Times(None, None), a), b)
  {
    hide LoadOne;
    assert [a, b][..1] == [a] && [a][..0] == [];
    assert LoadTimes([a]) == LoadOne(LoadTimes([a][..0]), a);
    assert LoadTimes([a, b]) == LoadOne(LoadTimes([a, b][..1]), b);
  }

  lemma EndOfAll(m: Match, ctx: Context, pe: Pe)
    requires forall s :: s in pe.sigs ==> s.notAfter.Some?
    ensures ScoreOf(m, ctx, pe).notAfter == LoadTimes(pe.sigs).notAfter
  {
    hide *;
    EndedIff(pe.sigs);
    TimesOfAll(m, ctx, pe);
  }

  /** Two files alike but for an untrusted signature of the first that lasts longer: it is printed before the
      second, although its own trusted signature ends earlier. */
  lemma UntrustedTimesCount()
    returns (m: Match, ctx: Context, first: Pe, second: Pe, trusted: Sig)
    ensures Considered(first) == first.sigs && TrustedSigs(m, ctx, first.sigs) == [trusted]
    ensures LoadTimes([trusted]).notAfter == Some(10) && ScoreOf(m, ctx, first).notAfter == Some(20)
    ensures ScoreOf(m, ctx, second).notAfter == Some(15)
    ensures PeCmp(Scored(first.filename, ScoreOf(m, ctx, first)), Scored(second.filename, ScoreOf(m, ctx, second))) < 0
  {
    m := (x, y) => x == y;
    ctx := Context([], [], [1], []);
    trusted := Sig([1], 128, 128, Some(0), Some(10));
    var stray, longer := Sig([2], 128, 128, Some(0), Some(20)), Sig([1], 128, 128, Some(0), Some(15));
    first := Pe([1], [1], [1], [1], [trusted, stray], false);
    second := Pe([2], [1], [1], [1], [longer], false);
    assert forall x, y :: m(x, y) <==> x == y;
    assert Considered(first) == [trusted, stray] && Considered(second) == [longer];
    assert forall s :: s in first.sigs || s in second.sigs ==> s.notAfter.Some?;
    assert LoadOne(Times(None, None), trusted) == Times(Some(0), Some(10));
    assert LoadOne(Times(None, None), longer) == Times(Some(0), Some(15));
    assert LoadOne(Times(Some(0), Some(10)), stray) == Times(Some(0), Some(20));
    hide *;
    TrustedOne(m, ctx, trusted, 1);
    TrustedOne(m, ctx, stray, 2);
    TrustedOne(m, ctx, longer, 1);
    TwoTrusted(m, ctx, trusted, stray);
    TwoTrusted(m, ctx, longer, stray);
    LoadedTwo(trusted, stray);
    LoadedTwo(longer, stray);
    EndOfAll(m, ctx, first);
    EndOfAll(m, ctx, second);
    SameStrength(m, ctx, first, trusted);
    SameStrength(m, ctx, second, longer);
    NoHashBits(ScoreOf(m, ctx, first));
    NoHashBits(ScoreOf(m, ctx, second));
    TimesDecide(Scored(first.filename, ScoreOf(m, ctx, first)), Scored(second.filename, ScoreOf(m, ctx, second)));
  }

  /** Scores of a file with one trusted signature of strength 128 and no digest listed. */
  lemma SameStrength(m: Match, ctx: Context, pe: Pe, s: Sig)
    requires TrustedSigs(m, ctx, Considered(pe)) == [s] && s.md == s.pk == 128
    requires ctx.dbDigests == [] && ctx.dbxDigests == []
    ensures var r := ScoreOf(m, ctx, pe); !RevokedByHash(r) && !TrustedByHash(r) && r.secbits == 128
  {
    hide TrustedSigs, Considered, LoadTimes;
    assert [s][..0] == [];
    assert Absorbed(UNTIMED, [s]) == Absorb(Absorbed(UNTIMED, []), s);
  }

  lemma NoHashBits(s: Score)
    requires !TrustedByHash(s)
    ensures HashBits(s) == 0
  {
  }
}
