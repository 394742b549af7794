/**
  The secure-boot chooser (sbchooser-pe.c, sbchooser.c): trust aggregation, the seven-key comparator, and the
  filter that prints the files a machine would boot.

  Whether a db or dbx certificate matches a signer is a relation given as a parameter; the strengths and
  validity times of a signature are taken as stored.
 */
module Chooser {
  import opened Bytes
  import opened Guids
  import opened Sorting

  type Cert = nat

  /** "The same certificate, or its issuer". */
  type Match = (Cert, Cert) -> bool

  datatype Sig = Sig(certs: seq<Cert>, md: u32, pk: u32, notBefore: Option<int>, notAfter: Option<int>)

  datatype Pe = Pe(
    filename: seq<byte>, sha256: seq<byte>, sha384: seq<byte>, sha512: seq<byte>, sigs: seq<Sig>, firstSigOnly: bool)

  datatype Context = Context(
    dbDigests: seq<seq<byte>>, dbxDigests: seq<seq<byte>>, dbCerts: seq<Cert>, dbxCerts: seq<Cert>)

  /** The fields of a pe_file that scoring fills in. */
  datatype Score = Score(
    revoked256: bool, revoked384: bool, revoked512: bool, trusted256: bool, trusted384: bool, trusted512: bool,
    secbits: u32, notBefore: Option<int>, notAfter: Option<int>)

  const UNSET: u32 := 0xffff_ffff

  // ---------- what trust means ----------

  ghost predicate Anchored(m: Match, s: Sig, certs: seq<Cert>) {
    exists i, j :: 0 <= i < |s.certs| && 0 <= j < |certs| && m(s.certs[i], certs[j])
  }

  /** In db and not in dbx. */
  ghost predicate Trusted(m: Match, ctx: Context, s: Sig) {
    Anchored(m, s, ctx.dbCerts) && !Anchored(m, s, ctx.dbxCerts)
  }

  function Considered(pe: Pe): (ss: seq<Sig>) {
    if pe.firstSigOnly && pe.sigs != [] then pe.sigs[..1] else pe.sigs
  }

  /** The trusted signatures, in order. */
  ghost function TrustedSigs(m: Match, ctx: Context, ss: seq<Sig>): (r: seq<Sig>)
    ensures forall s :: s in r <==> s in ss && Trusted(m, ctx, s)
  {
    if ss == [] then []
    else
      var last := ss[|ss| - 1];
      var front := TrustedSigs(m, ctx, ss[..|ss| - 1]);
      assert ss == ss[..|ss| - 1] + [last];
      if Trusted(m, ctx, last) then front + [last] else front
  }

  // ---------- the running minima and maxima ----------

  datatype Times = Times(notBefore: Option<int>, notAfter: Option<int>)

  datatype Acc = Acc(md: u32, pk: u32, notBefore: Option<int>, notAfter: Option<int>)

  /** time_cmp: a missing time compares after a present one. */
  function TimeCmp(a: Option<int>, b: Option<int>): (r: int) {
    match (a, b)
    case (Some(x), Some(y)) => if x < y then -1 else if x > y then 1 else 0
    case (Some(_), None) => -1
    case (None, Some(_)) => 1
    case (None, None) => 0
  }

  function Absorb(acc: Acc, s: Sig): (r: Acc) {
    Acc(if s.md < acc.md then s.md else acc.md,
        if s.pk < acc.pk then s.pk else acc.pk,
        if acc.notBefore.None? || TimeCmp(s.notBefore, acc.notBefore) < 0 then s.notBefore else acc.notBefore,
        if acc.notAfter.None? || TimeCmp(s.notAfter, acc.notAfter) > 0 then s.notAfter else acc.notAfter)
  }

  /** The times add_one_sig keeps while a file is loaded, whatever is trusted. */
  function LoadOne(t: Times, s: Sig): (r: Times) {
    Times(if t.notBefore.None? || TimeCmp(t.notBefore, s.notBefore) > 0 then s.notBefore else t.notBefore,
          if t.notAfter.None? || TimeCmp(t.notAfter, s.notAfter) < 0 then s.notAfter else t.notAfter)
  }

  function LoadTimes(ss: seq<Sig>): (t: Times) {
    if ss == [] then Times(None, None) else LoadOne(LoadTimes(ss[..|ss| - 1]), ss[|ss| - 1])
  }

  /** What the loop over the trusted signatures makes of the times it starts from. */
  function Absorbed(t: Times, ss: seq<Sig>): (r: Acc) {
    if ss == [] then Acc(UNSET, UNSET, t.notBefore, t.notAfter) else Absorb(Absorbed(t, ss[..|ss| - 1]), ss[|ss| - 1])
  }

  const UNTIMED := Times(None, None)

  function Weakest(ss: seq<Sig>): (n: u32) {
    if ss == [] then 0
    else
      var a := Absorbed(UNTIMED, ss);
      var md: u32 := if a.md == UNSET then 0 else a.md;
      var pk: u32 := if a.pk == UNSET then 0 else a.pk;
      if md < pk then md else pk
  }

  /** What scoring makes of a file whose time fields are `t`. */
  ghost function ScoreFrom(m: Match, ctx: Context, pe: Pe, t: Times): (r: Score) {
    var ts := TrustedSigs(m, ctx, Considered(pe));
    Score(pe.sha256 in ctx.dbxDigests, pe.sha384 in ctx.dbxDigests, pe.sha512 in ctx.dbxDigests,
          pe.sha256 in ctx.dbDigests, pe.sha384 in ctx.dbDigests, pe.sha512 in ctx.dbDigests,
          Weakest(ts), Absorbed(t, ts).notBefore, Absorbed(t, ts).notAfter)
  }

  /** The score of a loaded file. */
  ghost function ScoreOf(m: Match, ctx: Context, pe: Pe): (r: Score) {
    ScoreFrom(m, ctx, pe, LoadTimes(pe.sigs))
  }

  // ---------- the scoring code ----------

  /** check_secdb_hash. */
  method CheckHash(digests: seq<seq<byte>>, candidate: seq<byte>) returns (found: bool)
    ensures found == (candidate in digests)
  {
    found := false;
    for i := 0 to |digests|
      invariant found == (candidate in digests[..i])
    {
      assert digests[..i + 1] == digests[..i] + [digests[i]];
      if |candidate| == |digests[i]| && digests[i] == candidate {
        found := true;
      }
    }
    assert digests[..|digests|] == digests;
  }

  /** get_revocation and get_authorization. */
  method MatchesAny(m: Match, cert: Cert, certs: seq<Cert>) returns (found: bool)
    ensures found == exists j :: 0 <= j < |certs| && m(cert, certs[j])
  {
    for j := 0 to |certs|
      invariant forall k :: 0 <= k < j ==> !m(cert, certs[k])
    {
      if m(cert, certs[j]) {
        return true;
      }
    }
    return false;
  }

  /** update_sig_trust with update_cert_trust. */
  method SigTrust(m: Match, ctx: Context, s: Sig) returns (trusted: bool, revoked: bool)
    ensures trusted == Trusted(m, ctx, s) && revoked == Anchored(m, s, ctx.dbxCerts)
  {
    trusted, revoked := false, false;
    for i := 0 to |s.certs|
      invariant trusted == exists k, j :: 0 <= k < i && 0 <= j < |ctx.dbCerts| && m(s.certs[k], ctx.dbCerts[j])
      invariant revoked == exists k, j :: 0 <= k < i && 0 <= j < |ctx.dbxCerts| && m(s.certs[k], ctx.dbxCerts[j])
    {
      var r := MatchesAny(m, s.certs[i], ctx.dbxCerts);
      var t := MatchesAny(m, s.certs[i], ctx.dbCerts);
      trusted := trusted || t;
      revoked := revoked || r;
    }
    if revoked {
      trusted := false;
    }
  }

  /** A loaded file. Loading has already set the times, from every signature; the other fields are zero until
      it is scored. */
  class PeFile {
    const pe: Pe
    var revoked256: bool
    var revoked384: bool
    var revoked512: bool
    var trusted256: bool
    var trusted384: bool
    var trusted512: bool
    var secbits: u32
    var notBefore: Option<int>
    var notAfter: Option<int>

    /** load_pe, as far as the time fields go: add_one_sig for each signature. */
    constructor (pe: Pe)
      ensures this.pe == pe && Times(notBefore, notAfter) == LoadTimes(pe.sigs)
    {
      this.pe := pe;
      revoked256, revoked384, revoked512 := false, false, false;
      trusted256, trusted384, trusted512 := false, false, false;
      secbits, notBefore, notAfter := 0, None, None;
      new;
      assert pe.sigs[..0] == [];
      for i := 0 to |pe.sigs|
        invariant Times(notBefore, notAfter) == LoadTimes(pe.sigs[..i])
      {
        assert pe.sigs[..i + 1][..i] == pe.sigs[..i];
        AddOneSig(pe.sigs[i]);
      }
      assert pe.sigs[..|pe.sigs|] == pe.sigs;
    }

    method AddOneSig(s: Sig)
      modifies this`notBefore, this`notAfter
      ensures Times(notBefore, notAfter) == LoadOne(Times(old(notBefore), old(notAfter)), s)
    {
      if notBefore.None? || TimeCmp(notBefore, s.notBefore) > 0 {
        notBefore := s.notBefore;
      }
      if notAfter.None? || TimeCmp(notAfter, s.notAfter) < 0 {
        notAfter := s.notAfter;
      }
    }

    function Current(): (r: Score)
      reads this
    {
      Score(revoked256, revoked384, revoked512, trusted256, trusted384, trusted512, secbits, notBefore, notAfter)
    }

    method CheckHashes(ctx: Context)
      modifies this
      ensures Current() == old(Current()).(
        revoked256 := pe.sha256 in ctx.dbxDigests, revoked384 := pe.sha384 in ctx.dbxDigests,
        revoked512 := pe.sha512 in ctx.dbxDigests, trusted256 := pe.sha256 in ctx.dbDigests,
        trusted384 := pe.sha384 in ctx.dbDigests, trusted512 := pe.sha512 in ctx.dbDigests)
    {
      revoked512 := CheckHash(ctx.dbxDigests, pe.sha512);
      revoked384 := CheckHash(ctx.dbxDigests, pe.sha384);
      revoked256 := CheckHash(ctx.dbxDigests, pe.sha256);
      trusted512 := CheckHash(ctx.dbDigests, pe.sha512);
      trusted384 := CheckHash(ctx.dbDigests, pe.sha384);
      trusted256 := CheckHash(ctx.dbDigests, pe.sha256);
    }

    /** What a trusted signature changes. */
    method AbsorbSig(s: Sig, md: u32, pk: u32) returns (md': u32, pk': u32)
      modifies this`notBefore, this`notAfter
      ensures Acc(md', pk', notBefore, notAfter) == Absorb(Acc(md, pk, old(notBefore), old(notAfter)), s)
    {
      md', pk' := md, pk;
      if s.md < md' {
        md' := s.md;
      }
      if s.pk < pk' {
        pk' := s.pk;
      }
      if notBefore.None? || TimeCmp(s.notBefore, notBefore) < 0 {
        notBefore := s.notBefore;
      }
      if notAfter.None? || TimeCmp(s.notAfter, notAfter) > 0 {
        notAfter := s.notAfter;
      }
    }

    /** The loop over the signatures in update_pe_security. */
    method CheckSigs(m: Match, ctx: Context) returns (md: u32, pk: u32, found: bool)
      modifies this`notBefore, this`notAfter
      ensures var ts := TrustedSigs(m, ctx, Considered(pe));
        found == (ts != [])
        && Acc(md, pk, notBefore, notAfter) == Absorbed(Times(old(notBefore), old(notAfter)), ts)
    {
      hide Trusted, Absorb, TrustedSigs, Absorbed;
      md, pk, found := UNSET, UNSET, false;
      var i := 0;
      ghost var t := Times(notBefore, notAfter);
      NoneTrusted(m, ctx, pe.sigs[..0], t);
      while i < |pe.sigs|
        invariant 0 <= i <= |pe.sigs| && (pe.firstSigOnly ==> i == 0)
        invariant found == (TrustedSigs(m, ctx, pe.sigs[..i]) != [])
        invariant Acc(md, pk, notBefore, notAfter) == Absorbed(t, TrustedSigs(m, ctx, pe.sigs[..i]))
      {
        var s := pe.sigs[i];
        var trusted, _ := SigTrust(m, ctx, s);
        TrustedStep(m, ctx, pe.sigs, i, t);
        if trusted {
          found := true;
          md, pk := AbsorbSig(s, md, pk);
        }
        i := i + 1;
        if pe.firstSigOnly {
          break;
        }
      }
      assert pe.sigs[..i] == Considered(pe);
    }

    /** update_pe_security, from whatever times the file has. */
    method UpdateSecurity(m: Match, ctx: Context)
      modifies this
      ensures Current() == ScoreFrom(m, ctx, pe, Times(old(notBefore), old(notAfter)))
    {
      hide TrustedSigs, Considered, Absorbed;
      ghost var t := Times(notBefore, notAfter);
      CheckHashes(ctx);
      var md, pk, found := CheckSigs(m, ctx);
      AbsorbedStrengths(t, TrustedSigs(m, ctx, Considered(pe)));
      if !found {
        secbits := 0;
        return;
      }
      if md == UNSET {
        md := 0;
      }
      if pk == UNSET {
        pk := 0;
      }
      secbits := if md < pk then md else pk;
    }
  }

  /** The strengths do not depend on the times. */
  lemma {:induction false} AbsorbedStrengths(t: Times, ss: seq<Sig>)
    ensures Absorbed(t, ss).md == Absorbed(UNTIMED, ss).md && Absorbed(t, ss).pk == Absorbed(UNTIMED, ss).pk
  {
    hide TimeCmp;
    if ss != [] {
      AbsorbedStrengths(t, ss[..|ss| - 1]);
    }
  }

  lemma NoneTrusted(m: Match, ctx: Context, ss: seq<Sig>, t: Times)
    requires ss == []
    ensures TrustedSigs(m, ctx, ss) == [] && Absorbed(t, []) == Acc(UNSET, UNSET, t.notBefore, t.notAfter)
  {
  }

  lemma TrustedStep(m: Match, ctx: Context, ss: seq<Sig>, i: nat, t: Times)
    requires i < |ss|
    ensures var ts, ts' := TrustedSigs(m, ctx, ss[..i]), TrustedSigs(m, ctx, ss[..i + 1]);
      if Trusted(m, ctx, ss[i])
      then ts' == ts + [ss[i]] && Absorbed(t, ts') == Absorb(Absorbed(t, ts), ss[i])
      else ts' == ts
  {
    hide Trusted, Absorb;
    assert ss[..i + 1][..i] == ss[..i];
    var ts := TrustedSigs(m, ctx, ss[..i]);
    assert (ts + [ss[i]])[..|ts|] == ts;
  }

  // ---------- the filter ----------

  /** is_revoked_by_hash. */
  predicate RevokedByHash(s: Score) { s.revoked512 || s.revoked384 || s.revoked256 }

  /** is_trusted_by_hash. */
  predicate TrustedByHash(s: Score) { s.trusted512 || s.trusted384 || s.trusted256 }

  /** Whether the last loop of main prints the file. */
  predicate Prints(s: Score) {
    !RevokedByHash(s) && (TrustedByHash(s) || s.secbits != 0)
  }

  predicate HashIn(pe: Pe, digests: seq<seq<byte>>) {
    pe.sha256 in digests || pe.sha384 in digests || pe.sha512 in digests
  }

  /** The four steps of section 32.5.3.3 of the UEFI Specification 2.8. */
  ghost predicate Rule(m: Match, ctx: Context, pe: Pe) {
    if HashIn(pe, ctx.dbxDigests) then false
    else if HashIn(pe, ctx.dbDigests) then true
    else exists s :: s in pe.sigs && Trusted(m, ctx, s)
  }

  /** No strength is zero, and each of the two minima is known. */
  ghost predicate Strong(ss: seq<Sig>) {
    && (forall s :: s in ss ==> s.md > 0 && s.pk > 0)
    && (exists s :: s in ss && s.md < UNSET) && (exists s :: s in ss && s.pk < UNSET)
  }

  lemma {:induction false} AbsorbedIsLeast(ss: seq<Sig>)
    ensures forall s :: s in ss ==> Absorbed(UNTIMED, ss).md <= s.md && Absorbed(UNTIMED, ss).pk <= s.pk
    ensures Absorbed(UNTIMED, ss).md == UNSET || exists s :: s in ss && s.md == Absorbed(UNTIMED, ss).md
    ensures Absorbed(UNTIMED, ss).pk == UNSET || exists s :: s in ss && s.pk == Absorbed(UNTIMED, ss).pk
  {
    if ss != [] {
      var k := |ss| - 1;
      AbsorbedIsLeast(ss[..k]);
      hide Absorb;
      assert ss == ss[..k] + [ss[k]];
      assert forall s :: s in ss <==> s in ss[..k] || s == ss[k];
    }
  }

  // A signature may lack a time. The earliest start is then that of the others; but a missing end sets the latest end
  // back, so that only the ends after it count.

  /** The earliest of the starts there are. */
  ghost predicate Earliest(t: Option<int>, ss: seq<Sig>) {
    && (t.Some? ==> exists s :: s in ss && s.notBefore == t)
    && (forall s :: s in ss && s.notBefore.Some? ==> t.Some? && t.value <= s.notBefore.value)
  }

  /** The latest of the ends there are. */
  ghost predicate Latest(t: Option<int>, ss: seq<Sig>) {
    && (t.Some? ==> exists s :: s in ss && s.notAfter == t)
    && (forall s :: s in ss && s.notAfter.Some? ==> t.Some? && s.notAfter.value <= t.value)
  }

  /** The signatures behind the last one without an end. */
  function Ended(ss: seq<Sig>): (r: seq<Sig>)
    ensures forall s :: s in r ==> s in ss && s.notAfter.Some?
    ensures |r| <= |ss|
    ensures |r| == |ss| <==> r == ss
  {
    if ss == [] || ss[|ss| - 1].notAfter.None? then []
    else
      var front := Ended(ss[..|ss| - 1]);
      assert ss == ss[..|ss| - 1] + [ss[|ss| - 1]];
      front + [ss[|ss| - 1]]
  }

  lemma EndedSnoc(ss: seq<Sig>, s: Sig)
    ensures Ended(ss + [s]) == if s.notAfter.None? then [] else Ended(ss) + [s]
  {
    assert (ss + [s])[..|ss|] == ss;
  }

  lemma EarliestMore(t: Option<int>, ss: seq<Sig>, s: Sig)
    requires Earliest(t, ss)
    ensures Earliest(if t.None? || TimeCmp(t, s.notBefore) > 0 then s.notBefore else t, ss + [s])
  {
    assert s in ss + [s] && forall x :: x in ss + [s] <==> x in ss || x == s;
  }

  lemma LatestMore(t: Option<int>, ss: seq<Sig>, s: Sig)
    requires Latest(t, ss) && s.notAfter.Some?
    ensures Latest(if t.None? || TimeCmp(t, s.notAfter) < 0 then s.notAfter else t, ss + [s])
  {
    assert s in ss + [s] && forall x :: x in ss + [s] <==> x in ss || x == s;
  }

  lemma LoadSnoc(ss: seq<Sig>, s: Sig)
    ensures LoadTimes(ss + [s]) == LoadOne(LoadTimes(ss), s)
  {
    assert (ss + [s])[..|ss|] == ss;
  }

  /** Loading keeps the earliest start of all signatures, and the latest end behind the last that has none. */
  lemma {:induction false} LoadSpans(ss: seq<Sig>)
    ensures Earliest(LoadTimes(ss).notBefore, ss) && Latest(LoadTimes(ss).notAfter, Ended(ss))
  {
    if ss != [] {
      var k := |ss| - 1;
      var front, s := ss[..k], ss[k];
      assert ss == front + [s];
      LoadSpans(front);
      LoadSnoc(front, s);
      EndedSnoc(front, s);
      EarliestMore(LoadTimes(front).notBefore, front, s);
      if s.notAfter.Some? {
        LatestMore(LoadTimes(front).notAfter, Ended(front), s);
      }
      hide Earliest, LoadTimes, Ended;
      if s.notAfter.None? {
        assert LoadTimes(ss).notAfter == None;
      }
    }
  }

  lemma SameStep(acc: Acc, s: Sig)
    ensures Times(Absorb(acc, s).notBefore, Absorb(acc, s).notAfter) == LoadOne(Times(acc.notBefore, acc.notAfter), s)
  {
  }

  lemma AbsorbedLast(t: Times, ts: seq<Sig>)
    requires ts != []
    ensures Absorbed(t, ts) == Absorb(Absorbed(t, ts[..|ts| - 1]), ts[|ts| - 1])
  {
    hide Absorb;
  }

  lemma AbsorbedNone(t: Times)
    ensures var a := Absorbed(t, []); Times(a.notBefore, a.notAfter) == t
  {
  }

  /** Scoring goes on where loading stopped. */
  lemma {:induction false} ScoringLoads(all: seq<Sig>, ts: seq<Sig>)
    ensures var a := Absorbed(LoadTimes(all), ts); Times(a.notBefore, a.notAfter) == LoadTimes(all + ts)
    decreases |ts|
  {
    hide *;
    if ts == [] {
      assert all + ts == all;
      AbsorbedNone(LoadTimes(all));
    } else {
      var front, s := ts[..|ts| - 1], ts[|ts| - 1];
      ScoringLoads(all, front);
      AbsorbedLast(LoadTimes(all), ts);
      SameStep(Absorbed(LoadTimes(all), front), s);
      LoadSnoc(all + front, s);
      assert all + ts == all + front + [s];
    }
  }

  lemma ConsideredTrusted(m: Match, ctx: Context, pe: Pe)
    ensures forall s :: s in TrustedSigs(m, ctx, Considered(pe)) ==> s in pe.sigs
  {
    hide Trusted, TrustedSigs;
  }

  lemma {:induction false} EndedBehind(all: seq<Sig>, ts: seq<Sig>)
    ensures Ended(all + ts) == if Ended(ts) == ts then Ended(all) + ts else Ended(ts)
    decreases |ts|
  {
    hide *;
    if ts == [] {
      assert all + ts == all && Ended(all) + ts == Ended(all);
    } else {
      var front, s := ts[..|ts| - 1], ts[|ts| - 1];
      assert all + ts == all + front + [s] && ts == front + [s];
      EndedBehind(all, front);
      EndedSnoc(all + front, s);
      EndedSnoc(front, s);
      if s.notAfter.Some? {
        SnocEqual(Ended(front), front, s);
        if Ended(front) == front {
          assert Ended(all) + ts == Ended(all) + front + [s];
        }
      }
    }
  }

  lemma SnocEqual(x: seq<Sig>, y: seq<Sig>, s: Sig)
    ensures x + [s] == y + [s] <==> x == y
  {
    if x + [s] == y + [s] {
      assert x == (x + [s])[..|x|] && y == (y + [s])[..|y|];
    }
  }

  lemma EarliestOnce(t: Option<int>, u: Option<int>, ss: seq<Sig>, all: seq<Sig>)
    requires Earliest(t, ss) && Earliest(u, all) && forall s :: s in ss <==> s in all
    ensures t == u
  {
  }

  lemma LatestOnce(t: Option<int>, u: Option<int>, ss: seq<Sig>, all: seq<Sig>)
    requires Latest(t, ss) && Latest(u, all) && forall s :: s in ss <==> s in all
    ensures t == u
  {
  }

  /** The start of a scored file is the earliest of all its signatures, trusted or not, and its end the latest that
      loading and then scoring come to; when no end is missing, that of all signatures. */
  lemma TimesOfAll(m: Match, ctx: Context, pe: Pe)
    ensures var r, ts := ScoreOf(m, ctx, pe), TrustedSigs(m, ctx, Considered(pe));
      && Times(r.notBefore, r.notAfter) == LoadTimes(pe.sigs + ts)
      && r.notBefore == LoadTimes(pe.sigs).notBefore && Earliest(r.notBefore, pe.sigs)
      && Latest(r.notAfter, if Ended(ts) == ts then Ended(pe.sigs) + ts else Ended(ts))
      && (Ended(pe.sigs) == pe.sigs ==> r.notAfter == LoadTimes(pe.sigs).notAfter && Latest(r.notAfter, pe.sigs))
  {
    var ss, ts := pe.sigs, TrustedSigs(m, ctx, Considered(pe));
    ConsideredTrusted(m, ctx, pe);
    ScoringLoads(ss, ts);
    LoadSpans(ss + ts);
    LoadSpans(ss);
    EndedBehind(ss, ts);
    hide TrustedSigs, LoadTimes, Absorbed, Considered, Earliest, Latest, Ended;
    assert forall s :: s in ss + ts <==> s in ss;
    EarliestOnce(LoadTimes(ss + ts).notBefore, LoadTimes(ss).notBefore, ss + ts, ss);
    if Ended(ss) == ss {
      AllEnded(ss, ts);
      LatestOnce(LoadTimes(ss + ts).notAfter, LoadTimes(ss).notAfter, ss + ts, ss);
    }
  }

  lemma {:induction false} EndedIff(ss: seq<Sig>)
    ensures Ended(ss) == ss <==> forall s :: s in ss ==> s.notAfter.Some?
  {
    if ss != [] {
      var k := |ss| - 1;
      assert ss == ss[..k] + [ss[k]] && ss[k] in ss;
      EndedIff(ss[..k]);
      EndedSnoc(ss[..k], ss[k]);
      hide Ended;
      if forall s :: s in ss ==> s.notAfter.Some? {
        assert forall s :: s in ss[..k] ==> s in ss;
      }
    }
  }

  lemma AllEnded(ss: seq<Sig>, ts: seq<Sig>)
    requires Ended(ss) == ss && forall s :: s in ts ==> s in ss
    ensures Ended(ts) == ts
  {
    EndedIff(ss);
    EndedIff(ts);
    hide Ended;
  }

  /** Some signatures reach as far as all: to the earliest start, and to every end behind the last missing one, unless
      one of them lacks its own end. */
  ghost predicate Reaches(ts: seq<Sig>, all: seq<Sig>) {
    && (forall s :: s in all && s.notBefore.Some? ==>
         exists t :: t in ts && t.notBefore.Some? && t.notBefore.value <= s.notBefore.value)
    && (Ended(ts) != ts || forall s :: s in Ended(all) ==>
         exists t :: t in ts && t.notAfter.Some? && s.notAfter.value <= t.notAfter.value)
  }

  lemma StartsIff(t: Option<int>, ts: seq<Sig>, u: Option<int>, all: seq<Sig>)
    requires Earliest(t, ts) && Earliest(u, all) && forall s :: s in ts ==> s in all
    ensures t == u <==> forall s :: s in all && s.notBefore.Some? ==>
      exists x :: x in ts && x.notBefore.Some? && x.notBefore.value <= s.notBefore.value
  {
    if t == u && t.Some? {
      var x :| x in ts && x.notBefore == t;
    }
    if t != u && u.Some? {
      var y :| y in all && y.notBefore == u;
      assert forall x :: x in ts && x.notBefore.Some? ==> u.value < x.notBefore.value;
    }
  }

  lemma EndsIff(t: Option<int>, ts: seq<Sig>, u: Option<int>, more: seq<Sig>)
    requires Latest(t, ts) && Latest(u, more + ts) && forall s :: s in more ==> s.notAfter.Some?
    ensures t == u <==> forall s :: s in more ==>
      exists x :: x in ts && x.notAfter.Some? && s.notAfter.value <= x.notAfter.value
  {
    assert forall s :: s in more + ts <==> s in more || s in ts;
    if t == u && t.Some? {
      var x :| x in ts && x.notAfter == t;
    }
    if t != u && u.Some? {
      var y :| y in more + ts && y.notAfter == u;
      assert forall x :: x in ts && x.notAfter.Some? ==> x.notAfter.value < u.value;
    }
  }

  /** They are the times of the trusted signatures if and only if those reach as far as all. */
  lemma TimesOfTrustedIff(m: Match, ctx: Context, pe: Pe)
    ensures var r, ts := ScoreOf(m, ctx, pe), TrustedSigs(m, ctx, Considered(pe));
      Times(r.notBefore, r.notAfter) == LoadTimes(ts) <==> Reaches(ts, pe.sigs)
  {
    var r, ss, ts := ScoreOf(m, ctx, pe), pe.sigs, TrustedSigs(m, ctx, Considered(pe));
    TimesOfAll(m, ctx, pe);
    ConsideredTrusted(m, ctx, pe);
    LoadSpans(ts);
    hide TrustedSigs, ScoreOf, Considered, LoadTimes, Earliest, Latest, Ended;
    StartsIff(LoadTimes(ts).notBefore, ts, r.notBefore, ss);
    if Ended(ts) == ts {
      EndsIff(LoadTimes(ts).notAfter, ts, r.notAfter, Ended(ss));
    } else {
      LatestOnce(LoadTimes(ts).notAfter, r.notAfter, Ended(ts), Ended(ts));
    }
  }

  /** A signature without an end makes loading forget the end before it. */
  lemma MissingEndForgets(a: Sig, b: Sig)
    requires a.notAfter.Some? && b.notAfter.None?
    ensures LoadTimes([a]).notAfter == a.notAfter && LoadTimes([a, b]).notAfter == None
  {
    LoadSnoc([], a);
    LoadSnoc([a], b);
    assert [] + [a] == [a] && [a] + [b] == [a, b];
  }

  lemma BitsPositive(ss: seq<Sig>)
    requires ss != []
    ensures Weakest(ss) != 0 <==> Strong(ss)
  {
    AbsorbedIsLeast(ss);
    hide Absorbed;
  }

  /** Both kinds of strength are known of some signature. */
  ghost predicate Known(ss: seq<Sig>) {
    (exists s :: s in ss && s.md < UNSET) && (exists s :: s in ss && s.pk < UNSET)
  }

  /** The score is the least of the strengths of the considered trusted signatures, of both kinds together; it is zero
      if one kind is known of none of them. The times do not matter. */
  lemma ScoreIsLeast(m: Match, ctx: Context, pe: Pe, t: Times)
    ensures var n, ts := ScoreFrom(m, ctx, pe, t).secbits, TrustedSigs(m, ctx, Considered(pe));
      if Known(ts)
      then (forall s :: s in ts ==> n <= s.md && n <= s.pk) && (exists s :: s in ts && (n == s.md || n == s.pk))
      else n == 0
  {
    var ts := TrustedSigs(m, ctx, Considered(pe));
    AbsorbedIsLeast(ts);
    hide TrustedSigs, Considered, Absorbed;
  }

  /** The strengths elaborate_x509_info can store. */
  predicate Stored(pe: Pe) {
    forall s :: s in pe.sigs ==> s.md <= 256 && s.pk <= 256
  }

  /** From stored strengths no score exceeds 256. */
  lemma StoredScore(m: Match, ctx: Context, pe: Pe)
    requires Stored(pe)
    ensures ScoreOf(m, ctx, pe).secbits <= 256
  {
    var ts := TrustedSigs(m, ctx, Considered(pe));
    ConsideredTrusted(m, ctx, pe);
    AbsorbedIsLeast(ts);
    hide TrustedSigs, Considered, Absorbed, LoadTimes;
    if ts != [] {
      assert ts[0] in ts;
    }
  }

  /** Exactly the files that are printed. */
  lemma FilterExact(m: Match, ctx: Context, pe: Pe)
    ensures Prints(ScoreOf(m, ctx, pe)) <==>
      var ts := TrustedSigs(m, ctx, Considered(pe));
      && !HashIn(pe, ctx.dbxDigests)
      && (HashIn(pe, ctx.dbDigests) || (ts != [] && Strong(ts)))
  {
    var ts := TrustedSigs(m, ctx, Considered(pe));
    if ts != [] {
      BitsPositive(ts);
    }
    hide TrustedSigs, Strong, Absorbed;
  }

  lemma RuleBySigs(m: Match, ctx: Context, pe: Pe)
    requires !pe.firstSigOnly
    ensures (exists s :: s in pe.sigs && Trusted(m, ctx, s)) <==> TrustedSigs(m, ctx, Considered(pe)) != []
  {
    var ts := TrustedSigs(m, ctx, Considered(pe));
    hide TrustedSigs, Trusted;
    if ts != [] {
      assert ts[0] in ts;
    }
  }

  /** With all signatures considered, the filter follows the rule exactly when the rule does not rest on
      signatures alone or those are strong. */
  lemma FilterMeetsRule(m: Match, ctx: Context, pe: Pe)
    requires !pe.firstSigOnly
    ensures (Prints(ScoreOf(m, ctx, pe)) <==> Rule(m, ctx, pe)) <==>
      var ts := TrustedSigs(m, ctx, Considered(pe));
      HashIn(pe, ctx.dbxDigests) || HashIn(pe, ctx.dbDigests) || ts == [] || Strong(ts)
  {
    FilterExact(m, ctx, pe);
    RuleBySigs(m, ctx, pe);
    hide TrustedSigs, Strong, Prints, ScoreOf, Trusted, HashIn, Considered;
  }

  /** Every strength is positive and known. */
  predicate Positive(pe: Pe) {
    !pe.firstSigOnly && forall s :: s in pe.sigs ==> 0 < s.md < UNSET && 0 < s.pk < UNSET
  }

  lemma PositiveStrong(m: Match, ctx: Context, pe: Pe)
    requires Positive(pe)
    ensures var ts := TrustedSigs(m, ctx, Considered(pe)); ts == [] || Strong(ts)
  {
    var ts := TrustedSigs(m, ctx, Considered(pe));
    hide TrustedSigs, Trusted;
    if ts != [] {
      assert ts[0] in ts;
    }
  }

  lemma PositiveFollowsRule(m: Match, ctx: Context, pe: Pe)
    requires Positive(pe)
    ensures Prints(ScoreOf(m, ctx, pe)) <==> Rule(m, ctx, pe)
  {
    PositiveStrong(m, ctx, pe);
    FilterMeetsRule(m, ctx, pe);
    hide TrustedSigs, Strong, Prints, ScoreOf, Rule, HashIn, Considered;
  }

  /** With only the first signature considered, the others decide nothing that is printed, and no strength. */
  lemma LaterIgnored(m: Match, ctx: Context, pe: Pe)
    requires pe.firstSigOnly && pe.sigs != []
    ensures var one := pe.(sigs := [pe.sigs[0]]);
      && Prints(ScoreOf(m, ctx, pe)) == Prints(ScoreOf(m, ctx, one))
      && ScoreOf(m, ctx, pe).secbits == ScoreOf(m, ctx, one).secbits
  {
    var one := pe.(sigs := [pe.sigs[0]]);
    assert Considered(pe) == [pe.sigs[0]] && Considered(one) == [pe.sigs[0]][..1] == [pe.sigs[0]];
    hide TrustedSigs, Considered, LoadTimes, Absorbed, Weakest;
  }

  // ---------- larger databases ----------

  ghost predicate Within<T(!new)>(a: seq<T>, b: seq<T>) { forall x :: x in a ==> x in b }

  lemma AnchoredGrows(m: Match, s: Sig, a: seq<Cert>, b: seq<Cert>)
    requires Within(a, b) && Anchored(m, s, a)
    ensures Anchored(m, s, b)
  {
    var i, j :| 0 <= i < |s.certs| && 0 <= j < |a| && m(s.certs[i], a[j]);
    assert a[j] in b;
    var k :| 0 <= k < |b| && b[k] == a[j];
  }

  lemma TrustedGrows(m: Match, ctx: Context, ctx': Context, s: Sig)
    requires Within(ctx.dbCerts, ctx'.dbCerts) && Within(ctx'.dbxCerts, ctx.dbxCerts) && Trusted(m, ctx, s)
    ensures Trusted(m, ctx', s)
  {
    hide Anchored, Within;
    AnchoredGrows(m, s, ctx.dbCerts, ctx'.dbCerts);
    if Anchored(m, s, ctx'.dbxCerts) {
      AnchoredGrows(m, s, ctx'.dbxCerts, ctx.dbxCerts);
    }
  }

  /** More in db or less in dbx never fails a file that passed. */
  lemma RuleGrows(m: Match, ctx: Context, ctx': Context, pe: Pe)
    requires Within(ctx.dbCerts, ctx'.dbCerts) && Within(ctx.dbDigests, ctx'.dbDigests)
    requires Within(ctx'.dbxCerts, ctx.dbxCerts) && Within(ctx'.dbxDigests, ctx.dbxDigests)
    requires Rule(m, ctx, pe)
    ensures Rule(m, ctx', pe)
  {
    hide Trusted;
    if !HashIn(pe, ctx.dbDigests) {
      var s :| s in pe.sigs && Trusted(m, ctx, s);
      TrustedGrows(m, ctx, ctx', s);
    }
  }

  /** With positive strengths, enlarging db never removes a file and enlarging dbx never adds one. */
  lemma PrintsGrows(m: Match, ctx: Context, ctx': Context, pe: Pe)
    requires Positive(pe)
    requires Within(ctx.dbCerts, ctx'.dbCerts) && Within(ctx.dbDigests, ctx'.dbDigests)
    requires Within(ctx'.dbxCerts, ctx.dbxCerts) && Within(ctx'.dbxDigests, ctx.dbxDigests)
    requires Prints(ScoreOf(m, ctx, pe))
    ensures Prints(ScoreOf(m, ctx', pe))
  {
    PositiveFollowsRule(m, ctx, pe);
    PositiveFollowsRule(m, ctx', pe);
    hide Positive, Prints, ScoreOf, Rule, Within;
    RuleGrows(m, ctx, ctx', pe);
  }

  lemma AnchoredOne(m: Match, s: Sig, c: Cert, certs: seq<Cert>)
    requires s.certs == [c] && (forall x, y :: m(x, y) <==> x == y)
    ensures Anchored(m, s, certs) <==> c in certs
  {
    if c in certs {
      var j :| 0 <= j < |certs| && certs[j] == c;
      assert m(s.certs[0], certs[j]);
    }
  }

  lemma TrustedOne(m: Match, ctx: Context, s: Sig, c: Cert)
    requires s.certs == [c] && (forall x, y :: m(x, y) <==> x == y)
    ensures Trusted(m, ctx, s) <==> c in ctx.dbCerts && c !in ctx.dbxCerts
  {
    hide Anchored;
    AnchoredOne(m, s, c, ctx.dbCerts);
    AnchoredOne(m, s, c, ctx.dbxCerts);
  }

  /** A file with a good signature and one of strength zero is printed while only the good one is trusted. */
  lemma GoodAndZero(m: Match, ctx: Context, pe: Pe, good: Sig, zero: Sig)
    requires !pe.firstSigOnly && pe.sigs == [good, zero] && Trusted(m, ctx, good)
    requires ctx.dbDigests == [] && ctx.dbxDigests == []
    requires zero.md == 0 && 0 < good.md < UNSET && 0 < good.pk < UNSET
    ensures Prints(ScoreOf(m, ctx, pe)) <==> !Trusted(m, ctx, zero)
  {
    FilterExact(m, ctx, pe);
    hide TrustedSigs, Trusted, ScoreOf, Prints;
    var ts := TrustedSigs(m, ctx, Considered(pe));
    assert good in pe.sigs && zero in pe.sigs;
    assert good in ts;
    if Trusted(m, ctx, zero) {
      assert zero in ts;
    } else {
      assert forall s :: s in ts ==> s == good;
    }
  }

  /** Without positive strengths both fail: trusting a second signature of strength zero removes a file,
      and so revoking that signature adds it back. */
  lemma ZeroStrengthRemoves() returns (m: Match, small: Context, large: Context, revoking: Context, pe: Pe)
    ensures !pe.firstSigOnly
    ensures large == small.(dbCerts := large.dbCerts) && Within(small.dbCerts, large.dbCerts)
    ensures revoking == large.(dbxCerts := revoking.dbxCerts) && Within(large.dbxCerts, revoking.dbxCerts)
    ensures Prints(ScoreOf(m, small, pe)) && !Prints(ScoreOf(m, large, pe)) && Prints(ScoreOf(m, revoking, pe))
  {
    hide Trusted, ScoreOf, Prints;
    m := (x, y) => x == y;
    var good, zero := Sig([1], 128, 128, None, None), Sig([2], 0, 0, None, None);
    pe := Pe([], [1], [1], [1], [good, zero], false);
    small := Context([], [], [1], []);
    large := Context([], [], [1, 2], []);
    revoking := Context([], [], [1, 2], [2]);
    TrustedOne(m, small, good, 1);
    TrustedOne(m, large, good, 1);
    TrustedOne(m, revoking, good, 1);
    TrustedOne(m, small, zero, 2);
    TrustedOne(m, large, zero, 2);
    TrustedOne(m, revoking, zero, 2);
    GoodAndZero(m, small, pe, good, zero);
    GoodAndZero(m, large, pe, good, zero);
    GoodAndZero(m, revoking, pe, good, zero);
  }
}
