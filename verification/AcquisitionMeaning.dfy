/**
 What a RESULT means, read off the records of a package alone, and the equivalence with the evaluation's own
 predicate.
 */
module AcquisitionMeaning {
  import opened Basics
  import opened Ordering
  import opened Acquisition

  // ----- Claims and terminals, from the records

  /** The identifier is that of attempt k of the run, and of no earlier attempt. */
  ghost predicate Numbered(o: Crypto, runId: Hex, attemptId: Hex, k: nat)
  {
    o.attemptId(runId, k) == attemptId && forall j: nat :: j < k ==> o.attemptId(runId, j) != attemptId
  }

  /** The run id the manifest and the dispute fix. */
  function FixedRunId(o: Crypto, pkg: Package): Hex
  {
    var req := pkg.manifest.req;
    o.runId(o.manifestHash(pkg.manifest), pkg.disputeId, req.requirementId, req.judgeId)
  }

  /**
   The claim is in the package, signed by the provider, for an allowed attempt of the run under the manifest's
   profile.
   */
  ghost predicate Standing(o: Crypto, pkg: Package, c: Claim)
  {
    && c in pkg.claims
    && o.claimSigned(c, pkg.manifest.acq.provider)
    && c.profile == pkg.manifest.acq.profile
    && c.runId == FixedRunId(o, pkg)
    && exists k: nat :: k < pkg.manifest.acq.retry.maxAttempts && Numbered(o, c.runId, c.attemptId, k)
  }

  /** The claim's attempt comes before the other's. */
  ghost predicate Earlier(o: Crypto, d: Claim, c: Claim)
  {
    exists i: nat, k: nat :: i < k && Numbered(o, d.runId, d.attemptId, i) && Numbered(o, c.runId, c.attemptId, k)
  }

  /** A terminal record of the package that names the claim and is signed by the provider. */
  predicate Attests(o: Crypto, pkg: Package, c: Claim, t: Terminal)
  {
    && t in pkg.terminals
    && t.claimHash == o.claimHash(c)
    && o.terminalSigned(t, pkg.manifest.acq.provider)
  }

  /** All attested terminals of the claim, of which there are some, carry this status and this output. */
  ghost predicate AttestedAs(o: Crypto, pkg: Package, c: Claim, status: Status, output: Option<Hex>)
  {
    && (exists t :: Attests(o, pkg, c, t))
    && forall t :: Attests(o, pkg, c, t) ==> t.status == status && t.output == output
  }

  /** The first attested terminal of the claim, in list order, was observed under the whole required scope. */
  ghost predicate FirstCovers(o: Crypto, pkg: Package, c: Claim)
  {
    exists i :: 0 <= i < |pkg.terminals| && FirstAt(o, pkg, c, i) && CoversScope(pkg, pkg.terminals[i])
  }

  predicate CoversScope(pkg: Package, t: Terminal)
  {
    forall part :: part in pkg.manifest.req.requiredScope ==> part in t.scope
  }

  predicate FirstAt(o: Crypto, pkg: Package, c: Claim, i: nat)
    requires i < |pkg.terminals|
  {
    Attests(o, pkg, c, pkg.terminals[i]) && forall j :: 0 <= j < i ==> !Attests(o, pkg, c, pkg.terminals[j])
  }

  // ----- The log, from the records

  predicate LinkedEntry(o: Crypto, entries: seq<Entry>, i: nat)
    requires i < |entries|
  {
    && entries[i].seq_ == i
    && entries[i].prev == (if i == 0 then o.zero else entries[i - 1].entryHash)
    && entries[i].entryHash == o.entryHash(entries[i].seq_, entries[i].kind, entries[i].ref, entries[i].prev)
  }

  /** Numbered, linked and hashed entries, and a checkpoint over the last one signed by the manifest's anchor. */
  ghost predicate SealedLog(o: Crypto, pkg: Package)
  {
    && pkg.log.Some? && pkg.manifest.acq.anchor.Some? && pkg.log.value.checkpoint.Some?
    && var entries, cp := pkg.log.value.entries, pkg.log.value.checkpoint.value;
    && (forall i :: 0 <= i < |entries| ==> LinkedEntry(o, entries, i))
    && cp.head == (if entries == [] then o.zero else entries[|entries| - 1].entryHash)
    && cp.seq_ == |entries| - 1
    && o.checkpointSigned(cp, pkg.manifest.acq.anchor.value)
  }

  /** Entry i carries the hash, and no later entry does. */
  predicate LastWithHash(entries: seq<Entry>, i: nat, h: Hex)
  {
    i < |entries| && entries[i].entryHash == h && forall j :: i < j < |entries| ==> entries[j].entryHash != h
  }

  predicate CommitsDispute(o: Crypto, pkg: Package, entries: seq<Entry>, d: nat)
  {
    && d < |entries| && LastWithHash(entries, d, entries[d].entryHash)
    && entries[d].kind == DisputeCommitment && entries[d].ref == o.disputeHash(pkg.dispute)
  }

  predicate EntersClaim(o: Crypto, entries: seq<Entry>, e: nat, c: Claim)
  {
    && LastWithHash(entries, e, c.orderingProof)
    && entries[e].kind == ClaimEntry && entries[e].ref == o.coreHash(c.runId, c.attemptId, c.requestHash)
  }

  /** The log commits to the dispute before it enters any standing claim. */
  ghost predicate DisputeLogged(o: Crypto, pkg: Package, entries: seq<Entry>)
  {
    exists d: nat :: CommitsDispute(o, pkg, entries, d)
      && forall c :: Standing(o, pkg, c) ==> exists e: nat :: d < e && EntersClaim(o, entries, e, c)
  }

  // ----- The meaning of a RESULT

  /** The manifest lets only an attested NO_RESULT open another attempt. */
  predicate RetryOnly(pkg: Package)
  {
    forall x :: x in pkg.manifest.acq.retry.allowedAfter ==> x == AfterAttestedNoResult
  }

  /**
   Every other standing claim is for an earlier attempt, attested NO_RESULT, and the manifest committed such retries.
   */
  ghost predicate LastStanding(o: Crypto, pkg: Package, c: Claim)
  {
    && Standing(o, pkg, c) && multiset(pkg.claims)[c] == 1
    && forall d :: Standing(o, pkg, d) && d != c ==>
      && Earlier(o, d, c)
      && (exists output :: AttestedAs(o, pkg, d, NoResult, output))
      && AfterAttestedNoResult in pkg.manifest.acq.retry.allowedAfter
  }

  /** Two standing claims for one attempt are one claim, by hash. */
  ghost predicate NoRivals(o: Crypto, pkg: Package)
  {
    forall c, d :: Standing(o, pkg, c) && Standing(o, pkg, d) && c.attemptId == d.attemptId ==>
      o.claimHash(c) == o.claimHash(d)
  }

  ghost predicate Means(o: Crypto, pkg: Package, c: Claim, x: Hex)
  {
    && RetryOnly(pkg)
    && pkg.disputeId == o.disputeId(o.manifestHash(pkg.manifest), pkg.dispute.contractId, pkg.dispute.nonce)
    && SealedLog(o, pkg) && DisputeLogged(o, pkg, pkg.log.value.entries)
    && NoRivals(o, pkg)
    && LastStanding(o, pkg, c)
    && x != [] && AttestedAs(o, pkg, c, Result, Some(x)) && FirstCovers(o, pkg, c)
    && c.requestHash == o.requestHash(pkg.manifest.req.request)
  }

  // ----- The equivalence

  lemma {:induction false} IndexIsFirst(ids: seq<Hex>, x: Hex)
    requires x in ids
    ensures forall j :: 0 <= j < IndexOf(ids, x) ==> ids[j] != x
  {
    if ids[0] != x {
      IndexIsFirst(ids[1..], x);
      forall j | 0 <= j < IndexOf(ids, x) ensures ids[j] != x {
        if j > 0 { assert ids[j] == ids[1..][j - 1]; }
      }
    }
  }

  lemma NumberUnique(o: Crypto, runId: Hex, a: Hex, i: nat, k: nat)
    requires Numbered(o, runId, a, i) && Numbered(o, runId, a, k)
    ensures i == k
  {
  }

  lemma NumberIsIndex(o: Crypto, pkg: Package, c: Claim)
    requires c.runId == FixedRunId(o, pkg)
    ensures c.attemptId in AttemptIds(o, pkg) <==>
      exists k: nat :: k < pkg.manifest.acq.retry.maxAttempts && Numbered(o, c.runId, c.attemptId, k)
    ensures c.attemptId in AttemptIds(o, pkg) ==> Numbered(o, c.runId, c.attemptId, AttemptIndex(o, pkg, c))
  {
    var ids := AttemptIds(o, pkg);
    if c.attemptId in ids {
      IndexIsFirst(ids, c.attemptId);
      var k := AttemptIndex(o, pkg, c);
      assert forall j: nat :: j < k ==> o.attemptId(c.runId, j) == ids[j];
      assert Numbered(o, c.runId, c.attemptId, k);
    }
    if k: nat :| k < pkg.manifest.acq.retry.maxAttempts && Numbered(o, c.runId, c.attemptId, k) {
      assert ids[k] == c.attemptId;
    }
  }

  lemma StandingIsValid(o: Crypto, pkg: Package, c: Claim)
    ensures Standing(o, pkg, c) <==> c in Valid(o, pkg)
  {
    ValidMember(o, pkg, c);
    if c.runId == FixedRunId(o, pkg) { NumberIsIndex(o, pkg, c); }
  }

  lemma EarlierIsIndex(o: Crypto, pkg: Package, d: Claim, c: Claim)
    requires Standing(o, pkg, c) && Standing(o, pkg, d)
    ensures Earlier(o, d, c) <==> AttemptIndex(o, pkg, d) < AttemptIndex(o, pkg, c)
  {
    NumberIsIndex(o, pkg, c);
    NumberIsIndex(o, pkg, d);
    if i: nat, k: nat :| i < k && Numbered(o, d.runId, d.attemptId, i) && Numbered(o, c.runId, c.attemptId, k) {
      NumberUnique(o, d.runId, d.attemptId, i, AttemptIndex(o, pkg, d));
      NumberUnique(o, c.runId, c.attemptId, k, AttemptIndex(o, pkg, c));
    }
  }

  lemma TerminalsAttest(o: Crypto, pkg: Package, c: Claim, t: Terminal)
    ensures t in TerminalsFor(o, pkg, c) <==> Attests(o, pkg, c, t)
  {
  }

  lemma AgreedIsAttested(o: Crypto, pkg: Package, c: Claim, status: Status, output: Option<Hex>)
    ensures AttestedAs(o, pkg, c, status, output) <==>
      var ts := TerminalsFor(o, pkg, c); Agreed(ts) && ts[0].status == status && ts[0].output == output
  {
    var ts := TerminalsFor(o, pkg, c);
    forall t ensures t in ts <==> Attests(o, pkg, c, t) { TerminalsAttest(o, pkg, c, t); }
    if ts != [] { assert Attests(o, pkg, c, ts[0]); }
  }

  lemma NoResultIsAttested(o: Crypto, pkg: Package, c: Claim)
    ensures AttestedNoResult(o, pkg, c) <==> exists output :: AttestedAs(o, pkg, c, NoResult, output)
  {
    var ts := TerminalsFor(o, pkg, c);
    if AttestedNoResult(o, pkg, c) { AgreedIsAttested(o, pkg, c, NoResult, ts[0].output); }
    if output :| AttestedAs(o, pkg, c, NoResult, output) { AgreedIsAttested(o, pkg, c, NoResult, output); }
  }

  /** The first element a filter keeps. */
  lemma {:induction false} FilterFirst<T(!new)>(p: T -> bool, s: seq<T>) returns (i: nat)
    requires Filter(p, s) != []
    ensures i < |s| && p(s[i]) && Filter(p, s)[0] == s[i] && forall j :: 0 <= j < i ==> !p(s[j])
  {
    if p(s[0]) {
      i := 0;
    } else {
      i := FilterFirst(p, s[1..]);
      i := i + 1;
    }
  }

  lemma FirstIsFirstAt(o: Crypto, pkg: Package, c: Claim) returns (i: nat)
    requires TerminalsFor(o, pkg, c) != []
    ensures i < |pkg.terminals| && FirstAt(o, pkg, c, i) && pkg.terminals[i] == TerminalsFor(o, pkg, c)[0]
  {
    var provider, h := pkg.manifest.acq.provider, o.claimHash(c);
    i := FilterFirst((t: Terminal) => t.claimHash == h && o.terminalSigned(t, provider), pkg.terminals);
  }

  lemma FirstUnique(o: Crypto, pkg: Package, c: Claim, i: nat, j: nat)
    requires i < |pkg.terminals| && j < |pkg.terminals| && FirstAt(o, pkg, c, i) && FirstAt(o, pkg, c, j)
    ensures i == j
  {
  }

  lemma ResultIsMeant(o: Crypto, pkg: Package, c: Claim, x: Hex)
    ensures ResultFor(o, pkg, c, x) <==>
      && x != [] && AttestedAs(o, pkg, c, Result, Some(x)) && FirstCovers(o, pkg, c)
      && c.requestHash == o.requestHash(pkg.manifest.req.request)
  {
    AgreedIsAttested(o, pkg, c, Result, Some(x));
    if TerminalsFor(o, pkg, c) != [] {
      var i := FirstIsFirstAt(o, pkg, c);
      if FirstCovers(o, pkg, c) {
        var j :| 0 <= j < |pkg.terminals| && FirstAt(o, pkg, c, j) && CoversScope(pkg, pkg.terminals[j]);
        FirstUnique(o, pkg, c, i, j);
      }
    }
  }

  lemma SealedIsAttested(o: Crypto, pkg: Package)
    ensures SealedLog(o, pkg) <==> LogAttested(o, pkg)
  {
    if pkg.log.Some? {
      var entries := pkg.log.value.entries;
      forall i | 0 <= i < |entries| ensures LinkedEntry(o, entries, i) <==> ChainedAt(o, entries, i) { }
    }
  }

  lemma LoggedIsFirst(o: Crypto, pkg: Package, entries: seq<Entry>)
    ensures DisputeLogged(o, pkg, entries) <==> exists d :: DisputeBefore(o, pkg, entries, d, Valid(o, pkg))
  {
    forall c ensures Standing(o, pkg, c) <==> c in Valid(o, pkg) { StandingIsValid(o, pkg, c); }
    forall d: nat, c ensures ClaimAfter(o, entries, d, c) <==> exists e: nat :: d < e && EntersClaim(o, entries, e, c) {
      EnteredIsAfter(o, entries, d, c);
    }
    if DisputeLogged(o, pkg, entries) {
      var d: nat :| CommitsDispute(o, pkg, entries, d)
        && forall c :: Standing(o, pkg, c) ==> exists e: nat :: d < e && EntersClaim(o, entries, e, c);
      assert DisputeBefore(o, pkg, entries, d, Valid(o, pkg));
    }
    if d :| DisputeBefore(o, pkg, entries, d, Valid(o, pkg)) {
      var n: nat := d;
      assert CommitsDispute(o, pkg, entries, n);
    }
  }

  lemma EnteredIsAfter(o: Crypto, entries: seq<Entry>, d: nat, c: Claim)
    ensures ClaimAfter(o, entries, d, c) <==> exists e: nat :: d < e && EntersClaim(o, entries, e, c)
  {
    if ClaimAfter(o, entries, d, c) {
      var e :| d < e && ClaimAt(o, entries, e, c);
      var n: nat := e;
      assert EntersClaim(o, entries, n, c);
    }
    if e: nat :| d < e && EntersClaim(o, entries, e, c) {
      assert ClaimAt(o, entries, e, c);
    }
  }

  lemma LastIsStanding(o: Crypto, pkg: Package, c: Claim)
    ensures LastStanding(o, pkg, c) <==> LastAttempt(o, pkg, c) && (|Valid(o, pkg)| > 1 ==> RetryRuleCommitted(pkg))
  {
    forall d ensures Standing(o, pkg, d) <==> d in Valid(o, pkg) { StandingIsValid(o, pkg, d); }
    ValidCount(o, pkg, c);
    ValidMember(o, pkg, c);
    if Standing(o, pkg, c) {
      forall d | Standing(o, pkg, d)
        ensures Earlier(o, d, c) <==> AttemptIndex(o, pkg, d) < AttemptIndex(o, pkg, c)
        ensures AttestedNoResult(o, pkg, d) <==> exists output :: AttestedAs(o, pkg, d, NoResult, output)
      {
        EarlierIsIndex(o, pkg, d, c);
        NoResultIsAttested(o, pkg, d);
      }
      OtherClaims(Valid(o, pkg), c);
    }
  }

  /** A bag that holds c once holds something else exactly when it holds more than one. */
  lemma OtherClaims(m: multiset<Claim>, c: Claim)
    requires c in m
    ensures m[c] == 1 ==> (|m| > 1 <==> exists d :: d in m && d != c)
  {
    var rest := m - multiset{c};
    assert m == rest + multiset{c};
    if m[c] == 1 {
      if |m| > 1 {
        var d :| d in rest;
        assert d in m && d != c;
      }
      if d :| d in m && d != c { assert d in rest; }
    }
  }

  lemma RivalsAreOne(o: Crypto, pkg: Package)
    ensures NoRivals(o, pkg) <==> OneClaimPerAttempt(o, Valid(o, pkg))
  {
    forall d ensures Standing(o, pkg, d) <==> d in Valid(o, pkg) { StandingIsValid(o, pkg, d); }
  }

  /**
   Acquiring, in the records' own terms: who signed what, for which run and attempt, and in which order it was logged.
   */
  lemma AcquiresExactly(o: Crypto, pkg: Package, c: Claim, x: Hex)
    ensures Acquires(o, pkg, c, x) <==> Means(o, pkg, c, x)
  {
    SealedIsAttested(o, pkg);
    if pkg.log.Some? { LoggedIsFirst(o, pkg, pkg.log.value.entries); }
    RivalsAreOne(o, pkg);
    LastIsStanding(o, pkg, c);
    ResultIsMeant(o, pkg, c, x);
  }

  /**
   A package none of whose claims the provider signed is merely authorised, whatever its terminals and its log say.
   */
  lemma UnsignedIsAuthorized(o: Crypto, pkg: Package, out: Outcome)
    requires RetryOnly(pkg) && IsOutcome(o, pkg, out)
    requires forall c :: c in pkg.claims ==> !o.claimSigned(c, pkg.manifest.acq.provider)
    ensures out.state == Authorized && out.authorized == False && out.result == None
  {
    var vs := ValidClaims(o, pkg);
    RunIsRanked(o, pkg);
    if vs != [] {
      assert vs[0] in multiset(vs);
      StandingIsValid(o, pkg, vs[0]);
    }
  }

  /** Two standing claims of one attempt with different hashes are reported as an equivocation, and nothing results. */
  lemma RivalsAreReported(o: Crypto, pkg: Package, out: Outcome)
    requires RetryOnly(pkg) && !NoRivals(o, pkg) && IsOutcome(o, pkg, out)
    ensures out.state == Equivocation && out.authorized == False && out.result == None
  {
    RivalsAreOne(o, pkg);
    RunIsRanked(o, pkg);
  }
}
