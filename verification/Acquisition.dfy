/**
 The acquisition boundary of procedure manifests: an ordering log, claims, an attempt walk with a retry
 rule, and the four-term eligibility conjunction that decides between RESULT and UNRESOLVED.
 */
module Acquisition {
  import opened Basics
  import opened Ordering

  type Hex = string

  datatype RetryPredicate = AfterAttestedNoResult | After(other: string)

  datatype RetryPolicy = RetryPolicy(allowedAfter: seq<RetryPredicate>, maxAttempts: int)

  datatype Terms = Terms(profile: string, provider: Hex, anchor: Option<Hex>, retry: RetryPolicy)

  datatype Requirement = Requirement(
    requirementId: string, judgeId: string, request: string, requiredScope: set<string>)

  datatype Manifest = Manifest(acq: Terms, req: Requirement)

  datatype Dispute = Dispute(contractId: string, nonce: string, rest: string)

  /** The further members of a record, carried as opaque text. */
  datatype Claim = Claim(
    runId: Hex, attemptId: Hex, requestHash: Hex, profile: string, orderingProof: Hex, attestation: Hex, rest: string)

  datatype Status = Result | NoResult | Unresolved

  datatype Terminal = Terminal(
    claimHash: Hex, status: Status, output: Option<Hex>, scope: set<string>, attestation: Hex, rest: string)

  datatype Kind = DisputeCommitment | ClaimEntry | OtherEntry(text: string)

  datatype Entry = Entry(seq_: int, kind: Kind, ref: Hex, prev: Hex, entryHash: Hex)

  datatype Checkpoint = Checkpoint(head: Hex, seq_: int, attestation: Hex)

  datatype Log = Log(entries: seq<Entry>, checkpoint: Option<Checkpoint>)

  datatype Package = Package(
    manifest: Manifest, dispute: Dispute, disputeId: Hex, claims: seq<Claim>, terminals: seq<Terminal>,
    log: Option<Log>)

  /** The hashes and signature checks, as opaque functions: every result holds for all of them. */
  datatype Crypto = Crypto(
    zero: Hex, // the genesis link, 64 zeros
    manifestHash: Manifest -> Hex,
    disputeId: (Hex, string, string) -> Hex,
    disputeHash: Dispute -> Hex,
    runId: (Hex, Hex, string, string) -> Hex,
    attemptId: (Hex, nat) -> Hex,
    claimHash: Claim -> Hex,
    coreHash: (Hex, Hex, Hex) -> Hex,
    requestHash: string -> Hex,
    entryHash: (int, Kind, Hex, Hex) -> Hex,
    claimSigned: (Claim, Hex) -> bool,
    terminalSigned: (Terminal, Hex) -> bool,
    checkpointSigned: (Checkpoint, Hex) -> bool)

  // ---------------------------------------------------------------- claims

  function RunId(o: Crypto, pkg: Package): Hex
  {
    o.runId(o.manifestHash(pkg.manifest), pkg.disputeId, pkg.manifest.req.requirementId, pkg.manifest.req.judgeId)
  }

  function MaxAttempts(pkg: Package): nat
  {
    if pkg.manifest.acq.retry.maxAttempts < 0 then 0 else pkg.manifest.acq.retry.maxAttempts
  }

  function AttemptIdsOf(o: Crypto, runId: Hex, n: nat): seq<Hex>
  {
    seq(n, k requires 0 <= k => o.attemptId(runId, k))
  }

  function AttemptIds(o: Crypto, pkg: Package): seq<Hex>
  {
    AttemptIdsOf(o, RunId(o, pkg), MaxAttempts(pkg))
  }

  /** The position of the first occurrence, the length if there is none. */
  function IndexOf(ids: seq<Hex>, x: Hex): (i: nat)
    ensures x in ids ==> i < |ids| && ids[i] == x
  {
    if ids == [] || ids[0] == x then 0 else 1 + IndexOf(ids[1..], x)
  }

  predicate ClaimValid(o: Crypto, pkg: Package, c: Claim)
  {
    && c.runId == RunId(o, pkg)
    && c.attemptId in AttemptIds(o, pkg)
    && c.profile == pkg.manifest.acq.profile
    && o.claimSigned(c, pkg.manifest.acq.provider)
  }

  function AttemptIndex(o: Crypto, pkg: Package, c: Claim): nat
  {
    IndexOf(AttemptIds(o, pkg), c.attemptId)
  }

  /** The valid claims of a package, as a bag. */
  function Valid(o: Crypto, pkg: Package): multiset<Claim>
  {
    multiset(Filter((c: Claim) => ClaimValid(o, pkg, c), pkg.claims))
  }

  /** The valid claims in attempt order; claims of one attempt keep their package order. */
  function ValidClaims(o: Crypto, pkg: Package): seq<Claim>
  {
    Sort((a: Claim, b: Claim) => AttemptIndex(o, pkg, a) <= AttemptIndex(o, pkg, b),
      Filter((c: Claim) => ClaimValid(o, pkg, c), pkg.claims))
  }

  lemma ValidMember(o: Crypto, pkg: Package, c: Claim)
    ensures c in Valid(o, pkg) <==> c in pkg.claims && ClaimValid(o, pkg, c)
  {
    var vs := Filter((c: Claim) => ClaimValid(o, pkg, c), pkg.claims);
    assert c in multiset(vs) <==> c in vs;
  }

  lemma ValidClaimsBag(o: Crypto, pkg: Package)
    ensures multiset(ValidClaims(o, pkg)) == Valid(o, pkg)
  {
    SortPermutes((a: Claim, b: Claim) => AttemptIndex(o, pkg, a) <= AttemptIndex(o, pkg, b),
      Filter((c: Claim) => ClaimValid(o, pkg, c), pkg.claims));
  }

  /** The claims are listed in attempt order. */
  predicate Ranked(o: Crypto, pkg: Package, vs: seq<Claim>)
  {
    forall i, j :: 0 <= i < j < |vs| ==> AttemptIndex(o, pkg, vs[i]) <= AttemptIndex(o, pkg, vs[j])
  }

  lemma ValidClaimsSorted(o: Crypto, pkg: Package)
    ensures Ranked(o, pkg, ValidClaims(o, pkg))
  {
    SortSorts((a: Claim, b: Claim) => AttemptIndex(o, pkg, a) <= AttemptIndex(o, pkg, b),
      Filter((c: Claim) => ClaimValid(o, pkg, c), pkg.claims));
  }

  /** No attempt has two valid claims with different hashes. */
  ghost predicate OneClaimPerAttempt(o: Crypto, vs: multiset<Claim>)
  {
    forall c, d :: c in vs && d in vs && c.attemptId == d.attemptId ==> o.claimHash(c) == o.claimHash(d)
  }

  // ---------------------------------------------------------------- terminals

  /** The terminal records that name a claim hash and are attested by the provider, in package order. */
  function TerminalsNaming(o: Crypto, terminals: seq<Terminal>, provider: Hex, h: Hex): seq<Terminal>
  {
    Filter((t: Terminal) => t.claimHash == h && o.terminalSigned(t, provider), terminals)
  }

  function TerminalsFor(o: Crypto, pkg: Package, c: Claim): seq<Terminal>
  {
    TerminalsNaming(o, pkg.terminals, pkg.manifest.acq.provider, o.claimHash(c))
  }

  /** Some terminal is attested, and all attested ones carry one status and one output hash. */
  predicate Agreed(ts: seq<Terminal>)
  {
    ts != [] && forall t :: t in ts ==> t.status == ts[0].status && t.output == ts[0].output
  }

  predicate AttestedNoResult(o: Crypto, pkg: Package, c: Claim)
  {
    var ts := TerminalsFor(o, pkg, c);
    Agreed(ts) && ts[0].status == NoResult
  }

  // ---------------------------------------------------------------- ordering log

  predicate EntryOk(o: Crypto, e: Entry, i: nat, prev: Hex)
  {
    e.seq_ == i && e.prev == prev && e.entryHash == o.entryHash(e.seq_, e.kind, e.ref, e.prev)
  }

  predicate ChainedAt(o: Crypto, entries: seq<Entry>, i: nat)
    requires i < |entries|
  {
    EntryOk(o, entries[i], i, HeadAt(o, entries, i))
  }

  /** The first n entries are numbered, linked and hashed as a chain. */
  predicate Chained(o: Crypto, entries: seq<Entry>, n: nat)
    requires n <= |entries|
  {
    forall i :: 0 <= i < n ==> ChainedAt(o, entries, i)
  }

  /** The head after the first n entries. */
  function HeadAt(o: Crypto, entries: seq<Entry>, n: nat): Hex
    requires n <= |entries|
  {
    if n == 0 then o.zero else entries[n - 1].entryHash
  }

  /** Among the first n entries, h resolves to entry i: no later one carries the same hash. */
  predicate Resolves(entries: seq<Entry>, n: nat, i: int, h: Hex)
    requires n <= |entries|
  {
    0 <= i < n && entries[i].entryHash == h && forall j :: i < j < n ==> entries[j].entryHash != h
  }

  predicate IsDispute(o: Crypto, pkg: Package, e: Entry)
  {
    e.kind == DisputeCommitment && e.ref == o.disputeHash(pkg.dispute)
  }

  predicate IsClaimEntry(o: Crypto, c: Claim, e: Entry)
  {
    e.kind == ClaimEntry && e.ref == o.coreHash(c.runId, c.attemptId, c.requestHash)
  }

  predicate CheckpointOk(o: Crypto, cp: Checkpoint, head: Hex, n: nat, anchor: Hex)
  {
    cp.head == head && cp.seq_ == n - 1 && o.checkpointSigned(cp, anchor)
  }

  predicate LogAttested(o: Crypto, pkg: Package)
  {
    && pkg.log.Some? && pkg.manifest.acq.anchor.Some?
    && var log := pkg.log.value;
    && Chained(o, log.entries, |log.entries|)
    && log.checkpoint.Some?
    && CheckpointOk(o, log.checkpoint.value, HeadAt(o, log.entries, |log.entries|), |log.entries|,
      pkg.manifest.acq.anchor.value)
  }

  /** An anchor-attested chained log places the dispute commitment before the entry of every given claim. */
  ghost predicate DisputeFirst(o: Crypto, pkg: Package, claims: multiset<Claim>)
  {
    LogAttested(o, pkg) && exists d :: DisputeBefore(o, pkg, pkg.log.value.entries, d, claims)
  }

  ghost predicate DisputeBefore(o: Crypto, pkg: Package, entries: seq<Entry>, d: int, claims: multiset<Claim>)
  {
    DisputeAt(o, pkg, entries, d) && forall c :: c in claims ==> ClaimAfter(o, entries, d, c)
  }

  predicate DisputeAt(o: Crypto, pkg: Package, entries: seq<Entry>, d: int)
  {
    0 <= d < |entries| && Resolves(entries, |entries|, d, entries[d].entryHash) && IsDispute(o, pkg, entries[d])
  }

  predicate ClaimAt(o: Crypto, entries: seq<Entry>, e: int, c: Claim)
  {
    Resolves(entries, |entries|, e, c.orderingProof) && IsClaimEntry(o, c, entries[e])
  }

  /** The log holds the dispute commitment, and an entry for each of the given claims: the two sides can be compared. */
  ghost predicate Located(o: Crypto, pkg: Package, entries: seq<Entry>, claims: multiset<Claim>)
  {
    (exists d :: DisputeAt(o, pkg, entries, d)) && forall c :: c in claims ==> HasEntry(o, entries, c)
  }

  ghost predicate HasEntry(o: Crypto, entries: seq<Entry>, c: Claim)
  {
    exists e :: ClaimAt(o, entries, e, c)
  }

  ghost predicate ClaimAfter(o: Crypto, entries: seq<Entry>, d: int, c: Claim)
  {
    exists e :: d < e && ClaimAt(o, entries, e, c)
  }

  // ---------------------------------------------------------------- the declarative verdict

  /** Claim c is the last attempt of a bag of claims: counted once, every other claim earlier and attested NO_RESULT. */
  ghost predicate LastAttemptOf(o: Crypto, pkg: Package, claims: multiset<Claim>, c: Claim)
  {
    && claims[c] == 1
    && forall d :: d in claims && d != c ==>
      AttemptIndex(o, pkg, d) < AttemptIndex(o, pkg, c) && AttestedNoResult(o, pkg, d)
  }

  ghost predicate LastAttempt(o: Crypto, pkg: Package, c: Claim)
  {
    LastAttemptOf(o, pkg, Valid(o, pkg), c)
  }

  predicate RetryRuleCommitted(pkg: Package)
  {
    AfterAttestedNoResult in pkg.manifest.acq.retry.allowedAfter
  }

  predicate FormationOk(pkg: Package)
  {
    forall x :: x in pkg.manifest.acq.retry.allowedAfter ==> x == AfterAttestedNoResult
  }

  predicate DisputeDerives(o: Crypto, pkg: Package)
  {
    pkg.disputeId == o.disputeId(o.manifestHash(pkg.manifest), pkg.dispute.contractId, pkg.dispute.nonce)
  }

  /** The attested terminals of c agree on a result; the first one carries an output hash and covers the scope. */
  predicate ResultFor(o: Crypto, pkg: Package, c: Claim, output: Hex)
  {
    var ts := TerminalsFor(o, pkg, c);
    && Agreed(ts) && ts[0].status == Result
    && output != [] && ts[0].output == Some(output)
    && pkg.manifest.req.requiredScope <= ts[0].scope
    && c.requestHash == o.requestHash(pkg.manifest.req.request)
  }

  /** What RESULT means: claim c acquired authority for the output. */
  ghost predicate Acquires(o: Crypto, pkg: Package, c: Claim, output: Hex)
  {
    && FormationOk(pkg)
    && DisputeDerives(o, pkg)
    && DisputeFirst(o, pkg, Valid(o, pkg))
    && OneClaimPerAttempt(o, Valid(o, pkg))
    && LastAttempt(o, pkg, c)
    && (|Valid(o, pkg)| > 1 ==> RetryRuleCommitted(pkg))
    && ResultFor(o, pkg, c, output)
  }

  // ---------------------------------------------------------------- the ordering check

  datatype Term = True | False | CannotEstablish

  /** The dictionary the log walk fills: each hash with the last entry that carries it. */
  ghost predicate IsIndex(entries: seq<Entry>, n: nat, byHash: map<Hex, Entry>)
    requires n <= |entries|
  {
    && (forall i :: 0 <= i < n ==> Indexed(entries, i, byHash))
    && (forall h :: h in byHash ==> IsLastWith(entries, n, h, byHash[h]))
  }

  predicate Indexed(entries: seq<Entry>, i: nat, byHash: map<Hex, Entry>)
    requires i < |entries|
  {
    entries[i].entryHash in byHash
  }

  ghost predicate IsLastWith(entries: seq<Entry>, n: nat, h: Hex, e: Entry)
    requires n <= |entries|
  {
    exists i :: Resolves(entries, n, i, h) && e == entries[i]
  }

  /** Walks the log entries; None if one does not chain. */
  method WalkLog(o: Crypto, entries: seq<Entry>) returns (r: Option<map<Hex, Entry>>, prev: Hex)
    ensures r.Some? <==> Chained(o, entries, |entries|)
    ensures r.Some? ==> prev == HeadAt(o, entries, |entries|) && IsIndex(entries, |entries|, r.value)
  {
    prev := o.zero;
    var byHash: map<Hex, Entry> := map[];
    for i := 0 to |entries|
      invariant Chained(o, entries, i) && prev == HeadAt(o, entries, i)
      invariant IsIndex(entries, i, byHash)
    {
      var e := entries[i];
      if !EntryOk(o, e, i, prev) {
        assert !ChainedAt(o, entries, i);
        return None, prev;
      }
      assert ChainedAt(o, entries, i);
      ExtendIndex(entries, i, byHash);
      prev := e.entryHash;
      byHash := byHash[prev := e];
    }
    r := Some(byHash);
  }

  lemma ExtendIndex(entries: seq<Entry>, n: nat, byHash: map<Hex, Entry>)
    requires n < |entries| && IsIndex(entries, n, byHash)
    ensures IsIndex(entries, n + 1, byHash[entries[n].entryHash := entries[n]])
  {
    var m := byHash[entries[n].entryHash := entries[n]];
    forall i | 0 <= i <= n ensures Indexed(entries, i, m) {
      assert i < n ==> Indexed(entries, i, byHash);
    }
    forall h | h in m ensures IsLastWith(entries, n + 1, h, m[h]) {
      if h == entries[n].entryHash {
        assert Resolves(entries, n + 1, n, h);
      } else {
        var i :| Resolves(entries, n, i, h) && byHash[h] == entries[i];
        assert Resolves(entries, n + 1, i, h);
      }
    }
  }

  /** What the dictionary answers is the entry the hash resolves to, and its number is its position. */
  lemma Lookup(o: Crypto, entries: seq<Entry>, byHash: map<Hex, Entry>, h: Hex) returns (i: int)
    requires Chained(o, entries, |entries|) && IsIndex(entries, |entries|, byHash) && h in byHash
    ensures Resolves(entries, |entries|, i, h) && byHash[h] == entries[i] && entries[i].seq_ == i
  {
    assert IsLastWith(entries, |entries|, h, byHash[h]);
    i :| Resolves(entries, |entries|, i, h) && byHash[h] == entries[i];
    assert ChainedAt(o, entries, i);
  }

  lemma ResolvesOnce(entries: seq<Entry>, i: int, j: int, h: Hex)
    requires Resolves(entries, |entries|, i, h) && Resolves(entries, |entries|, j, h)
    ensures i == j
  {
  }

  /** Of the dispute entries whose hashes are done, first is the least. */
  ghost predicate LeastSoFar(o: Crypto, pkg: Package, entries: seq<Entry>, todo: set<Hex>, first: Option<int>)
  {
    && (first.Some? ==> DisputeAt(o, pkg, entries, first.value))
    && forall d :: DisputeAt(o, pkg, entries, d) ==> entries[d].entryHash in todo || (first.Some? && first.value <= d)
  }

  /** The least number of a dispute entry the dictionary holds. */
  method FirstDispute(o: Crypto, pkg: Package, entries: seq<Entry>, byHash: map<Hex, Entry>)
    returns (first: Option<int>)
    requires Chained(o, entries, |entries|) && IsIndex(entries, |entries|, byHash)
    ensures LeastSoFar(o, pkg, entries, {}, first)
  {
    first := None;
    var todo := byHash.Keys;
    NoneDone(o, pkg, entries, byHash);
    while todo != {}
      invariant todo <= byHash.Keys
      invariant LeastSoFar(o, pkg, entries, todo, first)
      decreases |todo|
    {
      var h :| h in todo;
      var e := byHash[h];
      ghost var i := Lookup(o, entries, byHash, h);
      LeastStep(o, pkg, entries, todo, first, h, i);
      todo := todo - {h};
      if IsDispute(o, pkg, e) && (first.None? || e.seq_ < first.value) {
        first := Some(e.seq_);
      }
    }
  }

  lemma NoneDone(o: Crypto, pkg: Package, entries: seq<Entry>, byHash: map<Hex, Entry>)
    requires IsIndex(entries, |entries|, byHash)
    ensures LeastSoFar(o, pkg, entries, byHash.Keys, None)
  {
    forall d | DisputeAt(o, pkg, entries, d) ensures entries[d].entryHash in byHash {
      assert Indexed(entries, d, byHash);
    }
  }

  lemma LeastStep(o: Crypto, pkg: Package, entries: seq<Entry>, todo: set<Hex>, first: Option<int>, h: Hex, i: int)
    requires LeastSoFar(o, pkg, entries, todo, first) && Resolves(entries, |entries|, i, h)
    ensures LeastSoFar(o, pkg, entries, todo - {h},
      if IsDispute(o, pkg, entries[i]) && (first.None? || i < first.value) then Some(i) else first)
  {
    var better := IsDispute(o, pkg, entries[i]) && (first.None? || i < first.value);
    var next := if better then Some(i) else first;
    assert better ==> DisputeAt(o, pkg, entries, i);
    forall d | DisputeAt(o, pkg, entries, d)
      ensures entries[d].entryHash in todo - {h} || (next.Some? && next.value <= d)
    {
      if entries[d].entryHash == h {
        ResolvesOnce(entries, d, i, h);
      }
    }
  }

  /** All claims resolve to their own entries, the least of which has number first. */
  ghost predicate IsFirstClaim(o: Crypto, entries: seq<Entry>, claims: seq<Claim>, first: int)
  {
    && (forall k :: 0 <= k < |claims| ==> ClaimAfter(o, entries, first - 1, claims[k]))
    && (claims != [] ==> exists k :: 0 <= k < |claims| && ClaimAt(o, entries, first, claims[k]))
  }

  /** Resolves every claim's ordering proof; None if one does not resolve to its own entry. */
  method FirstClaim(o: Crypto, entries: seq<Entry>, byHash: map<Hex, Entry>, claims: seq<Claim>)
    returns (first: Option<int>)
    requires Chained(o, entries, |entries|) && IsIndex(entries, |entries|, byHash)
    ensures first.None? ==> exists c :: c in claims && forall e :: !ClaimAt(o, entries, e, c)
    ensures first.Some? ==> IsFirstClaim(o, entries, claims, first.value)
  {
    var least := 0;
    for n := 0 to |claims|
      invariant IsFirstClaim(o, entries, claims[..n], least)
    {
      var at := ResolveClaim(o, entries, byHash, claims[n]);
      if at.None? {
        assert claims[n] in claims;
        return None;
      }
      ExtendFirstClaim(o, entries, claims, n, least, at.value);
      if n == 0 || at.value < least {
        least := at.value;
      }
    }
    assert claims[..|claims|] == claims;
    first := Some(least);
  }

  /** The entry a claim's ordering proof resolves to, if it is the claim's own. */
  method ResolveClaim(o: Crypto, entries: seq<Entry>, byHash: map<Hex, Entry>, c: Claim) returns (at: Option<int>)
    requires Chained(o, entries, |entries|) && IsIndex(entries, |entries|, byHash)
    ensures at.None? ==> forall e :: !ClaimAt(o, entries, e, c)
    ensures at.Some? ==> ClaimAt(o, entries, at.value, c)
  {
    if c.orderingProof !in byHash || !IsClaimEntry(o, c, byHash[c.orderingProof]) {
      UnresolvedClaim(o, entries, byHash, c);
      return None;
    }
    ghost var e := Lookup(o, entries, byHash, c.orderingProof);
    at := Some(byHash[c.orderingProof].seq_);
  }

  lemma UnresolvedClaim(o: Crypto, entries: seq<Entry>, byHash: map<Hex, Entry>, c: Claim)
    requires Chained(o, entries, |entries|) && IsIndex(entries, |entries|, byHash)
    requires c.orderingProof !in byHash || !IsClaimEntry(o, c, byHash[c.orderingProof])
    ensures forall e :: !ClaimAt(o, entries, e, c)
  {
    forall e ensures !ClaimAt(o, entries, e, c) {
      if Resolves(entries, |entries|, e, c.orderingProof) {
        assert Indexed(entries, e, byHash);
        var i := Lookup(o, entries, byHash, c.orderingProof);
        ResolvesOnce(entries, i, e, c.orderingProof);
      }
    }
  }

  lemma ExtendFirstClaim(o: Crypto, entries: seq<Entry>, claims: seq<Claim>, n: nat, least: int, e: int)
    requires n < |claims| && IsFirstClaim(o, entries, claims[..n], least) && ClaimAt(o, entries, e, claims[n])
    ensures IsFirstClaim(o, entries, claims[..n + 1], if n == 0 || e < least then e else least)
  {
    var cs, m := claims[..n + 1], if n == 0 || e < least then e else least;
    forall k | 0 <= k <= n ensures ClaimAfter(o, entries, m - 1, cs[k]) {
      if k < n {
        assert ClaimAfter(o, entries, least - 1, claims[..n][k]);
        var x :| least - 1 < x && ClaimAt(o, entries, x, claims[k]);
        assert m - 1 < x;
      } else {
        assert m - 1 < e;
      }
    }
    if m == e {
      assert ClaimAt(o, entries, m, cs[n]);
    } else {
      var k :| 0 <= k < n && ClaimAt(o, entries, least, claims[..n][k]);
      assert ClaimAt(o, entries, m, cs[k]);
    }
  }

  /** The least dispute entry comes first exactly when some dispute entry precedes every claim's. */
  lemma FirstOfEach(o: Crypto, pkg: Package, entries: seq<Entry>, claims: seq<Claim>, d: int, e: int)
    requires LeastSoFar(o, pkg, entries, {}, Some(d)) && IsFirstClaim(o, entries, claims, e)
    ensures claims == [] || d <= e <==> exists d' :: DisputeBefore(o, pkg, entries, d', multiset(claims))
  {
    if claims == [] || d <= e {
      forall c | c in multiset(claims) ensures ClaimAfter(o, entries, d, c) {
        assert c in claims;
        var k :| 0 <= k < |claims| && claims[k] == c;
        ClaimAfterDispute(o, pkg, entries, d, e, claims[k]);
      }
      assert DisputeBefore(o, pkg, entries, d, multiset(claims));
    }
    forall d' | DisputeBefore(o, pkg, entries, d', multiset(claims)) ensures claims == [] || d <= e {
      if claims != [] {
        var k :| 0 <= k < |claims| && ClaimAt(o, entries, e, claims[k]);
        assert claims[k] in multiset(claims);
        var x :| d' < x && ClaimAt(o, entries, x, claims[k]);
        ResolvesOnce(entries, x, e, claims[k].orderingProof);
      }
    }
  }

  lemma ClaimAfterDispute(o: Crypto, pkg: Package, entries: seq<Entry>, d: int, e: int, c: Claim)
    requires DisputeAt(o, pkg, entries, d) && ClaimAfter(o, entries, e - 1, c) && d <= e
    ensures ClaimAfter(o, entries, d, c)
  {
    var x :| e - 1 < x && ClaimAt(o, entries, x, c);
    assert entries[x].kind != entries[d].kind;
  }

  /** Reading the two sides off a chained log. */
  method CompareInLog(o: Crypto, pkg: Package, entries: seq<Entry>, byHash: map<Hex, Entry>, claims: seq<Claim>)
    returns (term: Term)
    requires Chained(o, entries, |entries|) && IsIndex(entries, |entries|, byHash)
    ensures term == True <==> exists d :: DisputeBefore(o, pkg, entries, d, multiset(claims))
    ensures term == CannotEstablish <==> !Located(o, pkg, entries, multiset(claims))
  {
    var d := FirstDispute(o, pkg, entries, byHash);
    if d.None? { return CannotEstablish; }
    var e := FirstClaim(o, entries, byHash, claims);
    if e.None? {
      UnresolvedBlocks(o, pkg, entries, claims);
      return CannotEstablish;
    }
    FirstOfEach(o, pkg, entries, claims, d.value, e.value);
    AllLocated(o, pkg, entries, claims, d.value, e.value);
    if claims != [] && d.value > e.value { return False; }
    return True;
  }

  lemma UnresolvedBlocks(o: Crypto, pkg: Package, entries: seq<Entry>, claims: seq<Claim>)
    requires exists c :: c in claims && forall e :: !ClaimAt(o, entries, e, c)
    ensures forall d :: !DisputeBefore(o, pkg, entries, d, multiset(claims))
    ensures !Located(o, pkg, entries, multiset(claims))
  {
    var c :| c in claims && forall e :: !ClaimAt(o, entries, e, c);
    assert c in multiset(claims);
    assert !HasEntry(o, entries, c);
  }

  lemma AllLocated(o: Crypto, pkg: Package, entries: seq<Entry>, claims: seq<Claim>, d: int, e: int)
    requires DisputeAt(o, pkg, entries, d) && IsFirstClaim(o, entries, claims, e)
    ensures Located(o, pkg, entries, multiset(claims))
  {
    forall c | c in multiset(claims) ensures HasEntry(o, entries, c) {
      assert c in claims;
      var k :| 0 <= k < |claims| && claims[k] == c;
      var x :| e - 1 < x && ClaimAt(o, entries, x, claims[k]);
    }
  }

  /** The ordering term: true, false and cannot_establish, each exactly. */
  ghost predicate IsOrder(o: Crypto, pkg: Package, claims: multiset<Claim>, term: Term)
  {
    && (term == True <==> DisputeFirst(o, pkg, claims))
    && (term == CannotEstablish <==> !LogAttested(o, pkg) || !Located(o, pkg, pkg.log.value.entries, claims))
  }

  /** The ordering term: true exactly when an attested log places the dispute before every claim. */
  method OrderingTerm(o: Crypto, pkg: Package, claims: seq<Claim>) returns (term: Term)
    ensures IsOrder(o, pkg, multiset(claims), term)
  {
    if pkg.log.None? || pkg.manifest.acq.anchor.None? {
      return CannotEstablish;
    }
    var log := pkg.log.value;
    var r, prev := WalkLog(o, log.entries);
    if r.None? { return CannotEstablish; }
    var anchor := pkg.manifest.acq.anchor.value;
    if log.checkpoint.None? || !CheckpointOk(o, log.checkpoint.value, prev, |log.entries|, anchor) {
      return CannotEstablish;
    }
    term := CompareInLog(o, pkg, log.entries, r.value, claims);
  }

  // ---------------------------------------------------------------- the attempt walk

  datatype State =
    | Authorized | FormationRefused | Claimed | Equivocation | AttestedAbsent | TerminalResult | TerminalUnresolved

  /** How the walk ends: conflicting terminals, no terminal to choose, or a chosen claim and terminal. */
  datatype Walked =
    | Conflict
    | Nothing(violation: bool, state: State)
    | Chosen(claim: Claim, terminal: Terminal, violation: bool)

  /** The walk reaches the last claim without a conflict and without breaking the retry rule. */
  predicate ReachesLast(o: Crypto, pkg: Package, vs: seq<Claim>)
  {
    && vs != []
    && (forall k :: 0 <= k < |vs| - 1 ==> AttestedNoResult(o, pkg, vs[k]))
    && (|vs| > 1 ==> RetryRuleCommitted(pkg))
    && var ts := TerminalsFor(o, pkg, vs[|vs| - 1]);
      Agreed(ts) && ts[0].status != NoResult
  }

  /** The walk goes past claim j: an attested NO_RESULT, and another attempt may follow it or none does. */
  predicate Passes(o: Crypto, pkg: Package, vs: seq<Claim>, j: nat)
    requires j < |vs|
  {
    AttestedNoResult(o, pkg, vs[j]) && (RetryRuleCommitted(pkg) || j == |vs| - 1)
  }

  /** The walk stops at claim k, the first it does not go past, or past the end. */
  predicate StopsAt(o: Crypto, pkg: Package, vs: seq<Claim>, k: nat)
  {
    && k <= |vs|
    && (forall j :: 0 <= j < k ==> Passes(o, pkg, vs, j))
    && (k < |vs| ==> !Passes(o, pkg, vs, k))
  }

  /** What stopping at claim k amounts to. */
  function WalkedAt(o: Crypto, pkg: Package, vs: seq<Claim>, k: nat): Walked
    requires k <= |vs|
  {
    if k == |vs| then Nothing(false, if vs == [] then Claimed else AttestedAbsent)
    else
      var ts, later := TerminalsFor(o, pkg, vs[k]), k + 1 < |vs|;
      if ts == [] then Nothing(later, Claimed)
      else if !Agreed(ts) then Conflict
      else if ts[0].status == NoResult then Nothing(true, AttestedAbsent)
      else Chosen(vs[k], ts[0], later)
  }

  /** w is how the walk ends. */
  ghost predicate Stopped(o: Crypto, pkg: Package, vs: seq<Claim>, w: Walked)
  {
    exists k :: StopsAt(o, pkg, vs, k) && w == WalkedAt(o, pkg, vs, k)
  }

  lemma StopDecides(o: Crypto, pkg: Package, vs: seq<Claim>, k: nat)
    requires StopsAt(o, pkg, vs, k)
    ensures var w := WalkedAt(o, pkg, vs, k);
      && (w.Chosen? && !w.violation <==> ReachesLast(o, pkg, vs))
      && (w.Chosen? ==> k < |vs| && w.claim == vs[k])
      && (w.Chosen? && !w.violation ==> k == |vs| - 1)
  {
    if ReachesLast(o, pkg, vs) {
      forall j | 0 <= j < |vs| - 1 ensures Passes(o, pkg, vs, j) { assert AttestedNoResult(o, pkg, vs[j]); }
      assert !Passes(o, pkg, vs, |vs| - 1);
      assert k == |vs| - 1;
    }
    if WalkedAt(o, pkg, vs, k).Chosen? && !WalkedAt(o, pkg, vs, k).violation {
      forall j | 0 <= j < |vs| - 1 ensures AttestedNoResult(o, pkg, vs[j]) { assert Passes(o, pkg, vs, j); }
      if |vs| > 1 { assert Passes(o, pkg, vs, 0); }
    }
  }

  /** Walks the valid claims in attempt order: only an attested NO_RESULT opens the next attempt. */
  method Walk(o: Crypto, pkg: Package, vs: seq<Claim>) returns (w: Walked)
    ensures Stopped(o, pkg, vs, w)
    ensures w.Chosen? && !w.violation <==> ReachesLast(o, pkg, vs)
    ensures w.Chosen? ==>
      var ts := TerminalsFor(o, pkg, w.claim); Agreed(ts) && w.terminal == ts[0] && ts[0].status != NoResult
    ensures w.Chosen? && !w.violation ==> vs != [] && w.claim == vs[|vs| - 1]
  {
    w := WalkOn(o, pkg, vs);
    ghost var k :| StopsAt(o, pkg, vs, k) && w == WalkedAt(o, pkg, vs, k);
    StopDecides(o, pkg, vs, k);
  }

  method WalkOn(o: Crypto, pkg: Package, vs: seq<Claim>) returns (w: Walked)
    ensures Stopped(o, pkg, vs, w)
  {
    var state := Claimed;
    for k := 0 to |vs|
      invariant forall j :: 0 <= j < k ==> Passes(o, pkg, vs, j)
      invariant state == if k == |vs| > 0 then AttestedAbsent else Claimed
    {
      var c := vs[k];
      var ts := TerminalsFor(o, pkg, c);
      var later := k + 1 < |vs|;
      if ts != [] && !Agreed(ts) {
        assert StopsAt(o, pkg, vs, k);
        return Conflict;
      }
      if ts == [] {
        assert StopsAt(o, pkg, vs, k);
        return Nothing(later, state);
      }
      if ts[0].status == NoResult {
        if !later { state := AttestedAbsent; }
        if !RetryRuleCommitted(pkg) && later {
          assert StopsAt(o, pkg, vs, k);
          return Nothing(true, AttestedAbsent);
        }
      } else {
        assert StopsAt(o, pkg, vs, k);
        return Chosen(c, ts[0], later);
      }
    }
    assert StopsAt(o, pkg, vs, |vs|);
    w := Nothing(false, state);
  }

  lemma {:induction false} SameIndexSameAttempt(ids: seq<Hex>, a: Hex, b: Hex)
    requires a in ids && b in ids && IndexOf(ids, a) == IndexOf(ids, b)
    ensures a == b
  {
    assert ids[IndexOf(ids, a)] == a;
  }

  lemma CountOfLast<T>(s: seq<T>)
    requires s != [] && s[|s| - 1] !in s[..|s| - 1]
    ensures multiset(s)[s[|s| - 1]] == 1
  {
    assert s == s[..|s| - 1] + [s[|s| - 1]];
  }

  lemma SingleOccurrence<T>(s: seq<T>, i: nat, j: nat)
    requires i < j < |s| && s[i] == s[j]
    ensures multiset(s)[s[i]] > 1
  {
    assert s == s[..i] + [s[i]] + s[i + 1..];
    assert s[j] == s[i + 1..][j - i - 1];
  }

  lemma InBag<T>(s: seq<T>, i: nat)
    requires i < |s|
    ensures s[i] in multiset(s)
  {
  }

  /** In attempt order, the last attempt stands last and every claim before it is attested NO_RESULT. */
  lemma LastAttemptIsLast(o: Crypto, pkg: Package, vs: seq<Claim>, c: Claim)
    requires Ranked(o, pkg, vs) && LastAttemptOf(o, pkg, multiset(vs), c)
    ensures vs != [] && vs[|vs| - 1] == c
    ensures forall k :: 0 <= k < |vs| - 1 ==> AttestedNoResult(o, pkg, vs[k])
  {
    var i := Position(vs, c);
    InBag(vs, |vs| - 1);
    forall k | 0 <= k < |vs| - 1 ensures AttestedNoResult(o, pkg, vs[k]) {
      InBag(vs, k);
      if vs[k] == c { SingleOccurrence(vs, k, |vs| - 1); }
    }
  }

  lemma Position<T>(s: seq<T>, x: T) returns (k: nat)
    requires x in multiset(s)
    ensures k < |s| && s[k] == x
  {
    assert x in s;
    k :| 0 <= k < |s| && s[k] == x;
  }

  /** Claims of the run that ended differently were claims of different attempts. */
  lemma DifferentAttempts(o: Crypto, pkg: Package, claims: multiset<Claim>, c: Claim, d: Claim)
    requires OneClaimPerAttempt(o, claims) && c in claims && d in claims
    requires c.attemptId in AttemptIds(o, pkg) && d.attemptId in AttemptIds(o, pkg)
    requires AttestedNoResult(o, pkg, c) && !AttestedNoResult(o, pkg, d)
    ensures AttemptIndex(o, pkg, c) != AttemptIndex(o, pkg, d)
  {
    if AttemptIndex(o, pkg, c) == AttemptIndex(o, pkg, d) {
      SameIndexSameAttempt(AttemptIds(o, pkg), c.attemptId, d.attemptId);
    }
  }

  lemma EarlierAttempt(o: Crypto, pkg: Package, vs: seq<Claim>, k: nat)
    requires Ranked(o, pkg, vs) && OneClaimPerAttempt(o, multiset(vs)) && ReachesLast(o, pkg, vs) && k < |vs| - 1
    requires forall c :: c in vs ==> c.attemptId in AttemptIds(o, pkg)
    ensures AttemptIndex(o, pkg, vs[k]) < AttemptIndex(o, pkg, vs[|vs| - 1])
  {
    InBag(vs, k);
    InBag(vs, |vs| - 1);
    DifferentAttempts(o, pkg, multiset(vs), vs[k], vs[|vs| - 1]);
  }

  /** Conversely, a walk that reaches the last claim reaches the last attempt. */
  lemma LastIsLastAttempt(o: Crypto, pkg: Package, vs: seq<Claim>)
    requires Ranked(o, pkg, vs) && OneClaimPerAttempt(o, multiset(vs)) && ReachesLast(o, pkg, vs)
    requires forall c :: c in vs ==> c.attemptId in AttemptIds(o, pkg)
    ensures LastAttemptOf(o, pkg, multiset(vs), vs[|vs| - 1])
  {
    var n := |vs| - 1;
    forall k | 0 <= k < n ensures AttemptIndex(o, pkg, vs[k]) < AttemptIndex(o, pkg, vs[n]) {
      EarlierAttempt(o, pkg, vs, k);
    }
    assert vs[n] !in vs[..n];
    CountOfLast(vs);
    forall d | d in multiset(vs) && d != vs[n]
      ensures AttemptIndex(o, pkg, d) < AttemptIndex(o, pkg, vs[n]) && AttestedNoResult(o, pkg, d)
    {
      var k := Position(vs, d);
    }
  }

  // ---------------------------------------------------------------- the evaluation

  /** The four eligibility terms, the reported state, and the output hash when the verdict is RESULT. */
  datatype Outcome = Outcome(
    authorized: Term, binding: Term, unique: Term, scope: Term, state: State, result: Option<Hex>)

  function Refused(authorized: Term, unique: Term, state: State): Outcome
  {
    Outcome(authorized, CannotEstablish, unique, CannotEstablish, state, None)
  }

  /** RESULT needs all four terms true and a non-empty output hash. */
  function Finish(authorized: Term, binding: bool, scope: bool, state: State, output: Option<Hex>): Outcome
  {
    Outcome(authorized, if binding then True else False, True, if scope then True else False, state,
      if authorized == True && binding && scope && output.Some? && output.value != [] then output else None)
  }

  function ClaimHash(o: Crypto, c: Claim): Hex
  {
    o.claimHash(c)
  }

  /** The dictionary from attempts to the hashes of their claims. */
  ghost predicate HashesByAttempt(o: Crypto, vs: seq<Claim>, n: nat, m: map<Hex, set<Hex>>)
    requires n <= |vs|
  {
    && (forall j :: 0 <= j < n ==> vs[j].attemptId in m && ClaimHash(o, vs[j]) in m[vs[j].attemptId])
    && (forall a, h :: a in m && h in m[a] ==>
          exists j :: 0 <= j < n && vs[j].attemptId == a && ClaimHash(o, vs[j]) == h)
  }

  /** Collects the claim hashes of each attempt and asks that none has two. */
  method OneHashPerAttempt(o: Crypto, vs: seq<Claim>) returns (ok: bool)
    ensures ok <==> OneClaimPerAttempt(o, multiset(vs))
  {
    var perAttempt: map<Hex, set<Hex>> := map[];
    for k := 0 to |vs|
      invariant HashesByAttempt(o, vs, k, perAttempt)
    {
      var a := vs[k].attemptId;
      var hs := (if a in perAttempt then perAttempt[a] else {}) + {ClaimHash(o, vs[k])};
      perAttempt := perAttempt[a := hs];
    }
    ok := forall a :: a in perAttempt ==> |perAttempt[a]| <= 1;
    SingletonHashes(o, vs, perAttempt);
  }

  lemma AtMostOne<T>(s: set<T>, x: T, y: T)
    requires |s| <= 1 && x in s && y in s
    ensures x == y
  {
    assert x != y ==> |{x, y}| == 2 && {x, y} <= s;
    if x != y { SubsetSize({x, y}, s); }
  }

  lemma TwoOf<T>(s: set<T>) returns (x: T, y: T)
    requires |s| > 1
    ensures x in s && y in s && x != y
  {
    x :| x in s;
    assert |s - {x}| == |s| - 1;
    y :| y in s - {x};
  }

  lemma SingletonHashes(o: Crypto, vs: seq<Claim>, m: map<Hex, set<Hex>>)
    requires HashesByAttempt(o, vs, |vs|, m)
    ensures (forall a :: a in m ==> |m[a]| <= 1) <==> OneClaimPerAttempt(o, multiset(vs))
  {
    if forall a :: a in m ==> |m[a]| <= 1 {
      forall c, d | c in multiset(vs) && d in multiset(vs) && c.attemptId == d.attemptId
        ensures o.claimHash(c) == o.claimHash(d)
      {
        AtMostOne(m[c.attemptId], ClaimHash(o, c), ClaimHash(o, d));
      }
    } else {
      var a :| a in m && |m[a]| > 1;
      var x, y := TwoOf(m[a]);
      var i :| 0 <= i < |vs| && vs[i].attemptId == a && ClaimHash(o, vs[i]) == x;
      var j :| 0 <= j < |vs| && vs[j].attemptId == a && ClaimHash(o, vs[j]) == y;
      assert vs[i] in multiset(vs) && vs[j] in multiset(vs);
    }
  }

  /** The request the claim binds is the committed one. */
  predicate RequestBound(o: Crypto, pkg: Package, c: Claim)
  {
    c.requestHash == o.requestHash(pkg.manifest.req.request)
  }

  /** Everything RESULT needs besides the chosen terminal, read off the claims in attempt order. */
  ghost predicate WalkPasses(o: Crypto, pkg: Package)
  {
    && FormationOk(pkg) && DisputeDerives(o, pkg) && DisputeFirst(o, pkg, Valid(o, pkg))
    && OneClaimPerAttempt(o, Valid(o, pkg)) && ReachesLast(o, pkg, ValidClaims(o, pkg))
  }

  /** c is an attempt whose attested terminals agree on something other than NO_RESULT. */
  predicate Ended(o: Crypto, pkg: Package, c: Claim)
  {
    Agreed(TerminalsFor(o, pkg, c)) && TerminalsFor(o, pkg, c)[0].status != NoResult
  }

  lemma RunIsRanked(o: Crypto, pkg: Package)
    ensures multiset(ValidClaims(o, pkg)) == Valid(o, pkg) && |Valid(o, pkg)| == |ValidClaims(o, pkg)|
    ensures Ranked(o, pkg, ValidClaims(o, pkg))
    ensures forall c :: c in ValidClaims(o, pkg) ==> c.attemptId in AttemptIds(o, pkg)
  {
    ValidClaimsBag(o, pkg);
    ValidClaimsSorted(o, pkg);
    forall c | c in ValidClaims(o, pkg) ensures c.attemptId in AttemptIds(o, pkg) {
      assert c in multiset(ValidClaims(o, pkg));
      ValidMember(o, pkg, c);
    }
  }

  /** With one claim per attempt, the last attempt that ended is where the walk ends. */
  lemma WalkEnds(o: Crypto, pkg: Package, vs: seq<Claim>, c: Claim)
    requires Ranked(o, pkg, vs) && OneClaimPerAttempt(o, multiset(vs))
    requires forall d :: d in vs ==> d.attemptId in AttemptIds(o, pkg)
    ensures LastAttemptOf(o, pkg, multiset(vs), c) && Ended(o, pkg, c) && (|vs| > 1 ==> RetryRuleCommitted(pkg))
      <==> ReachesLast(o, pkg, vs) && c == vs[|vs| - 1]
  {
    if LastAttemptOf(o, pkg, multiset(vs), c) {
      LastAttemptIsLast(o, pkg, vs, c);
    }
    if ReachesLast(o, pkg, vs) {
      LastIsLastAttempt(o, pkg, vs);
    }
  }

  /** Acquiring is reaching the last claim and finding an eligible result there. */
  lemma WalkDecides(o: Crypto, pkg: Package, c: Claim, x: Hex)
    ensures Acquires(o, pkg, c, x) <==>
      WalkPasses(o, pkg) && c == ValidClaims(o, pkg)[|ValidClaims(o, pkg)| - 1] && ResultFor(o, pkg, c, x)
  {
    RunIsRanked(o, pkg);
    if OneClaimPerAttempt(o, Valid(o, pkg)) {
      WalkEnds(o, pkg, ValidClaims(o, pkg), c);
    }
  }

  /** The verdict as a value: the output hash of the claim that acquires it, if any. */
  ghost predicate IsVerdict(o: Crypto, pkg: Package, r: Option<Hex>)
  {
    forall x :: r == Some(x) <==> exists c :: Acquires(o, pkg, c, x)
  }

  lemma NoVerdict(o: Crypto, pkg: Package)
    requires !WalkPasses(o, pkg)
    ensures IsVerdict(o, pkg, None)
  {
    forall c, x ensures !Acquires(o, pkg, c, x) { WalkDecides(o, pkg, c, x); }
  }

  lemma VerdictOfLast(o: Crypto, pkg: Package, r: Option<Hex>)
    requires WalkPasses(o, pkg)
    requires forall x :: r == Some(x) <==> ResultFor(o, pkg, ValidClaims(o, pkg)[|ValidClaims(o, pkg)| - 1], x)
    ensures IsVerdict(o, pkg, r)
  {
    var last := ValidClaims(o, pkg)[|ValidClaims(o, pkg)| - 1];
    forall x ensures r == Some(x) <==> exists c :: Acquires(o, pkg, c, x) {
      forall c ensures Acquires(o, pkg, c, x) <==> c == last && r == Some(x) { WalkDecides(o, pkg, c, x); }
      assert r == Some(x) ==> Acquires(o, pkg, last, x);
    }
  }

  /** The first term before the walk: the dispute id derives, and the log puts the dispute first. */
  function Admitted(o: Crypto, pkg: Package, order: Term): Term
  {
    if DisputeDerives(o, pkg) then order else False
  }

  /** The terms and the state, given how the walk ended. */
  ghost predicate EndsAs(o: Crypto, pkg: Package, w: Walked, admitted: Term, out: Outcome)
  {
    match w
    case Conflict => out == Refused(admitted, False, Equivocation)
    case Nothing(violation, state) => out == Refused(if violation then False else admitted, CannotEstablish, state)
    case Chosen(c, t, violation) =>
      && out.authorized == (if violation then False else admitted)
      && out.unique == True
      && (out.binding == if RequestBound(o, pkg, c) then True else False)
      && (out.scope == if pkg.manifest.req.requiredScope <= t.scope then True else False)
      && (out.state == if t.status == Unresolved then TerminalUnresolved else TerminalResult)
  }

  /** The whole outcome: state and terms where the package is refused before the walk, and where the walk stops. */
  ghost predicate IsOutcome(o: Crypto, pkg: Package, out: Outcome)
  {
    var vs := ValidClaims(o, pkg);
    if !FormationOk(pkg) then out == Refused(False, CannotEstablish, FormationRefused)
    else if vs == [] then out == Refused(False, CannotEstablish, Authorized)
    else if !OneClaimPerAttempt(o, Valid(o, pkg)) then out == Refused(False, CannotEstablish, Equivocation)
    else exists order :: IsOrder(o, pkg, Valid(o, pkg), order) && RunEnds(o, pkg, vs, Admitted(o, pkg, order), out)
  }

  /** The outcome is that of the way the walk ends. */
  ghost predicate RunEnds(o: Crypto, pkg: Package, vs: seq<Claim>, admitted: Term, out: Outcome)
  {
    exists w :: Stopped(o, pkg, vs, w) && EndsAs(o, pkg, w, admitted, out)
  }

  /**
   The evaluation under the synthetic profile. Its verdict is RESULT exactly when a claim acquires the output; the state
   and the four terms are those of the place where the package or the walk stops.
   */
  method Evaluate(o: Crypto, pkg: Package) returns (out: Outcome)
    ensures IsVerdict(o, pkg, out.result) && IsOutcome(o, pkg, out)
  {
    if !FormationOk(pkg) {
      NoVerdict(o, pkg);
      return Refused(False, CannotEstablish, FormationRefused);
    }
    var vs := ValidClaims(o, pkg);
    assert multiset(vs) == Valid(o, pkg) by { ValidClaimsBag(o, pkg); }
    var order := OrderingTerm(o, pkg, vs);
    if vs == [] {
      NoVerdict(o, pkg);
      return Refused(False, CannotEstablish, Authorized);
    }
    var one := OneHashPerAttempt(o, vs);
    if !one {
      NoVerdict(o, pkg);
      return Refused(False, CannotEstablish, Equivocation);
    }
    out := EvaluateRun(o, pkg, vs, Admitted(o, pkg, order));
  }

  /** The walk and the terms that depend on where it ends. */
  method EvaluateRun(o: Crypto, pkg: Package, vs: seq<Claim>, admitted: Term) returns (out: Outcome)
    requires vs == ValidClaims(o, pkg) && FormationOk(pkg) && OneClaimPerAttempt(o, Valid(o, pkg))
    requires admitted == True <==> DisputeDerives(o, pkg) && DisputeFirst(o, pkg, Valid(o, pkg))
    ensures IsVerdict(o, pkg, out.result) && RunEnds(o, pkg, vs, admitted, out)
  {
    var w := Walk(o, pkg, vs);
    if w.Conflict? {
      NoVerdict(o, pkg);
      out := Refused(admitted, False, Equivocation);
      assert EndsAs(o, pkg, w, admitted, out);
      return;
    }
    var authorized := if w.violation then False else admitted;
    if w.Nothing? {
      NoVerdict(o, pkg);
      out := Refused(authorized, CannotEstablish, w.state);
      assert EndsAs(o, pkg, w, admitted, out);
      return;
    }
    out := Conclude(o, pkg, w.claim, w.terminal, authorized);
    assert EndsAs(o, pkg, w, admitted, out);
    if authorized == True { VerdictOfLast(o, pkg, out.result); } else { NoVerdict(o, pkg); }
  }

  /** The last three terms, on the chosen claim and its first attested terminal. */
  function Conclude(o: Crypto, pkg: Package, c: Claim, t: Terminal, authorized: Term): (out: Outcome)
    requires var ts := TerminalsFor(o, pkg, c); Agreed(ts) && t == ts[0] && t.status != NoResult
    ensures authorized == True ==> forall x :: out.result == Some(x) <==> ResultFor(o, pkg, c, x)
    ensures authorized != True ==> out.result == None
  {
    var binding, scope := RequestBound(o, pkg, c), pkg.manifest.req.requiredScope <= t.scope;
    if t.status == Unresolved then Finish(authorized, binding, scope, TerminalUnresolved, None)
    else Finish(authorized, binding, scope, TerminalResult, t.output)
  }

  // ---------------------------------------------------------------- terms and verdict

  predicate AllTrue(out: Outcome)
  {
    out.authorized == True && out.binding == True && out.unique == True && out.scope == True
  }

  /** The terminals of the last claim carry a non-empty output hash. */
  predicate LastCarriesOutput(o: Crypto, pkg: Package, vs: seq<Claim>)
  {
    && vs != []
    && var ts := TerminalsFor(o, pkg, vs[|vs| - 1]);
      ts != [] && ts[0].output.Some? && ts[0].output.value != []
  }

  ghost predicate HasResult(o: Crypto, pkg: Package, c: Claim)
  {
    exists x :: ResultFor(o, pkg, c, x)
  }

  /**
   Where the walk ends decides the terms: all are true exactly when it passes and the last claim is bound and covered.
   */
  lemma TermsOfEnd(o: Crypto, pkg: Package, vs: seq<Claim>, k: nat, admitted: Term, out: Outcome)
    requires StopsAt(o, pkg, vs, k) && EndsAs(o, pkg, WalkedAt(o, pkg, vs, k), admitted, out)
    ensures AllTrue(out) && out.state == TerminalResult && LastCarriesOutput(o, pkg, vs) <==>
      && admitted == True
      && ReachesLast(o, pkg, vs)
      && HasResult(o, pkg, vs[|vs| - 1])
  {
    StopDecides(o, pkg, vs, k);
    if AllTrue(out) && out.state == TerminalResult && LastCarriesOutput(o, pkg, vs) {
      assert ResultFor(o, pkg, vs[|vs| - 1], TerminalsFor(o, pkg, vs[|vs| - 1])[0].output.value);
    }
  }

  /**
   The verdict is RESULT exactly when all four reported terms are true, the state is a terminal result, and it carries
   an output.
   */
  lemma TermsDecide(o: Crypto, pkg: Package, out: Outcome)
    requires IsOutcome(o, pkg, out) && IsVerdict(o, pkg, out.result)
    ensures out.result.Some? <==>
      AllTrue(out) && out.state == TerminalResult && LastCarriesOutput(o, pkg, ValidClaims(o, pkg))
  {
    var vs := ValidClaims(o, pkg);
    if FormationOk(pkg) && vs != [] && OneClaimPerAttempt(o, Valid(o, pkg)) {
      var order :| IsOrder(o, pkg, Valid(o, pkg), order) && RunEnds(o, pkg, vs, Admitted(o, pkg, order), out);
      var w :| Stopped(o, pkg, vs, w) && EndsAs(o, pkg, w, Admitted(o, pkg, order), out);
      var k :| StopsAt(o, pkg, vs, k) && w == WalkedAt(o, pkg, vs, k);
      TermsOfEnd(o, pkg, vs, k, Admitted(o, pkg, order), out);
      VerdictOfEnd(o, pkg, out.result);
    } else {
      NoVerdict(o, pkg);
      assert out.result == None;
    }
  }

  lemma VerdictOfEnd(o: Crypto, pkg: Package, r: Option<Hex>)
    requires IsVerdict(o, pkg, r)
    ensures r.Some? <==> WalkPasses(o, pkg) && HasResult(o, pkg, ValidClaims(o, pkg)[|ValidClaims(o, pkg)| - 1])
  {
    if r.Some? {
      var c :| Acquires(o, pkg, c, r.value);
      WalkDecides(o, pkg, c, r.value);
    }
    if WalkPasses(o, pkg) {
      var last := ValidClaims(o, pkg)[|ValidClaims(o, pkg)| - 1];
      if HasResult(o, pkg, last) {
        var x :| ResultFor(o, pkg, last, x);
        WalkDecides(o, pkg, last, x);
      }
    }
  }

  // ---------------------------------------------------------------- equivocation is incurable

  /** pkg' holds at least the claims and terminals of pkg, under the same manifest and dispute id. */
  predicate Extends(pkg: Package, pkg': Package)
  {
    && pkg'.manifest == pkg.manifest && pkg'.disputeId == pkg.disputeId
    && (forall c :: c in pkg.claims ==> c in pkg'.claims)
    && (forall t :: t in pkg.terminals ==> t in pkg'.terminals)
  }

  predicate Differ(t: Terminal, u: Terminal)
  {
    t.status != u.status || t.output != u.output
  }

  /** Two distinct valid claims for one attempt. */
  ghost predicate ClaimsEquivocate(o: Crypto, pkg: Package)
  {
    !OneClaimPerAttempt(o, Valid(o, pkg))
  }

  /** Attested terminals of one valid claim that disagree. */
  predicate TerminalsDisagree(o: Crypto, pkg: Package, c: Claim)
  {
    exists t, u :: t in TerminalsFor(o, pkg, c) && u in TerminalsFor(o, pkg, c) && Differ(t, u)
  }

  lemma ExtendsKeepsValid(o: Crypto, pkg: Package, pkg': Package, c: Claim)
    requires Extends(pkg, pkg') && c in Valid(o, pkg)
    ensures c in Valid(o, pkg')
  {
    ValidMember(o, pkg, c);
    ValidMember(o, pkg', c);
  }

  lemma ExtendsKeepsTerminal(o: Crypto, pkg: Package, pkg': Package, c: Claim, t: Terminal)
    requires Extends(pkg, pkg') && t in TerminalsFor(o, pkg, c)
    ensures t in TerminalsFor(o, pkg', c)
  {
  }

  /** Whoever acquires authority, every valid claim has agreeing attested terminals. */
  lemma AllAgreed(o: Crypto, pkg: Package, c: Claim, x: Hex, d: Claim)
    requires Acquires(o, pkg, c, x) && d in Valid(o, pkg)
    ensures Agreed(TerminalsFor(o, pkg, d))
  {
  }

  /**
   Once a package holds two distinct valid claims for one attempt, or disagreeing attested terminals for
   a valid claim, no package that extends it evaluates to RESULT, wherever the walk would stop.
   */
  lemma EquivocationIncurable(o: Crypto, pkg: Package, pkg': Package, c: Claim, x: Hex)
    requires Extends(pkg, pkg')
    requires ClaimsEquivocate(o, pkg) || exists d :: d in Valid(o, pkg) && TerminalsDisagree(o, pkg, d)
    ensures !Acquires(o, pkg', c, x)
  {
    if ClaimsEquivocate(o, pkg) {
      ClaimConflictPersists(o, pkg, pkg');
    } else {
      var d :| d in Valid(o, pkg) && TerminalsDisagree(o, pkg, d);
      TerminalConflictPersists(o, pkg, pkg', d);
      if Acquires(o, pkg', c, x) {
        AllAgreed(o, pkg', c, x, d);
      }
    }
  }

  lemma ClaimConflictPersists(o: Crypto, pkg: Package, pkg': Package)
    requires Extends(pkg, pkg') && ClaimsEquivocate(o, pkg)
    ensures ClaimsEquivocate(o, pkg')
  {
    var a, b :| a in Valid(o, pkg) && b in Valid(o, pkg)
      && a.attemptId == b.attemptId && o.claimHash(a) != o.claimHash(b);
    ExtendsKeepsValid(o, pkg, pkg', a);
    ExtendsKeepsValid(o, pkg, pkg', b);
  }

  lemma TerminalConflictPersists(o: Crypto, pkg: Package, pkg': Package, d: Claim)
    requires Extends(pkg, pkg') && d in Valid(o, pkg) && TerminalsDisagree(o, pkg, d)
    ensures d in Valid(o, pkg') && !Agreed(TerminalsFor(o, pkg', d))
  {
    ExtendsKeepsValid(o, pkg, pkg', d);
    var t, u :| t in TerminalsFor(o, pkg, d) && u in TerminalsFor(o, pkg, d) && Differ(t, u);
    ExtendsKeepsTerminal(o, pkg, pkg', d, t);
    ExtendsKeepsTerminal(o, pkg, pkg', d, u);
  }

  // ---------------------------------------------------------------- order and duplication of claims

  lemma ValidCount(o: Crypto, pkg: Package, c: Claim)
    ensures Valid(o, pkg)[c] == if ClaimValid(o, pkg, c) then multiset(pkg.claims)[c] else 0
  {
    FilterCount((c: Claim) => ClaimValid(o, pkg, c), pkg.claims, c);
  }

  /** The packages differ at most in their claims. */
  predicate SameButClaims(pkg: Package, pkg': Package)
  {
    pkg' == pkg.(claims := pkg'.claims)
  }

  lemma SameClaimFacts(o: Crypto, pkg: Package, pkg': Package, c: Claim)
    requires SameButClaims(pkg, pkg')
    ensures AttemptIndex(o, pkg, c) == AttemptIndex(o, pkg', c)
    ensures AttestedNoResult(o, pkg, c) <==> AttestedNoResult(o, pkg', c)
    ensures ClaimValid(o, pkg, c) <==> ClaimValid(o, pkg', c)
  {
    assert RunId(o, pkg) == RunId(o, pkg') && MaxAttempts(pkg) == MaxAttempts(pkg');
    assert TerminalsFor(o, pkg, c) == TerminalsFor(o, pkg', c);
  }

  lemma SameOrdering(o: Crypto, pkg: Package, pkg': Package, claims: multiset<Claim>, claims': multiset<Claim>)
    requires SameButClaims(pkg, pkg') && DisputeFirst(o, pkg, claims)
    requires forall c :: c in claims' ==> c in claims
    ensures DisputeFirst(o, pkg', claims')
  {
    var entries := pkg.log.value.entries;
    var d :| DisputeBefore(o, pkg, entries, d, claims);
    assert DisputeBefore(o, pkg', entries, d, claims');
  }

  /**
   A package that differs in its claims only, and whose bag of valid claims holds c once and no new claim, acquires
   too.
   */
  lemma AcquiresTransfers(o: Crypto, pkg: Package, pkg': Package, c: Claim, x: Hex)
    requires SameButClaims(pkg, pkg') && Acquires(o, pkg, c, x)
    requires Valid(o, pkg')[c] == 1 && (forall d :: d in Valid(o, pkg') ==> d in Valid(o, pkg))
    requires |Valid(o, pkg')| > 1 ==> RetryRuleCommitted(pkg)
    ensures Acquires(o, pkg', c, x)
  {
    SameOrdering(o, pkg, pkg', Valid(o, pkg), Valid(o, pkg'));
    SameLastAttempt(o, pkg, pkg', c);
    assert TerminalsFor(o, pkg, c) == TerminalsFor(o, pkg', c);
    assert ResultFor(o, pkg', c, x);
  }

  lemma SameLastAttempt(o: Crypto, pkg: Package, pkg': Package, c: Claim)
    requires SameButClaims(pkg, pkg') && LastAttempt(o, pkg, c)
    requires Valid(o, pkg')[c] == 1 && (forall d :: d in Valid(o, pkg') ==> d in Valid(o, pkg))
    ensures LastAttempt(o, pkg', c)
  {
    SameClaimFacts(o, pkg, pkg', c);
    forall d | d in Valid(o, pkg') && d != c
      ensures AttemptIndex(o, pkg', d) < AttemptIndex(o, pkg', c) && AttestedNoResult(o, pkg', d)
    {
      SameClaimFacts(o, pkg, pkg', d);
    }
  }

  lemma SameValid(o: Crypto, pkg: Package, pkg': Package)
    requires SameButClaims(pkg, pkg') && multiset(pkg'.claims) == multiset(pkg.claims)
    ensures Valid(o, pkg) == Valid(o, pkg')
  {
    forall d ensures Valid(o, pkg)[d] == Valid(o, pkg')[d] {
      ValidCount(o, pkg, d);
      ValidCount(o, pkg', d);
      SameClaimFacts(o, pkg, pkg', d);
    }
  }

  /** The verdict does not depend on the order in which the claims are listed. */
  lemma ClaimOrderIrrelevant(o: Crypto, pkg: Package, pkg': Package, c: Claim, x: Hex)
    requires SameButClaims(pkg, pkg') && multiset(pkg'.claims) == multiset(pkg.claims)
    ensures Acquires(o, pkg, c, x) <==> Acquires(o, pkg', c, x)
  {
    SameValid(o, pkg, pkg');
    if Acquires(o, pkg, c, x) {
      AcquiresTransfers(o, pkg, pkg', c, x);
    } else if Acquires(o, pkg', c, x) {
      AcquiresTransfers(o, pkg', pkg, c, x);
    }
  }

  /** The package with one more copy of a claim. */
  function Copied(pkg: Package, d: Claim): (pkg': Package)
    ensures SameButClaims(pkg, pkg')
  {
    pkg.(claims := pkg.claims + [d])
  }

  lemma ValidWithCopy(o: Crypto, pkg: Package, d: Claim)
    requires d in Valid(o, pkg)
    ensures Valid(o, Copied(pkg, d)) == Valid(o, pkg) + multiset{d}
  {
    ValidMember(o, pkg, d);
    forall c ensures Valid(o, Copied(pkg, d))[c] == (Valid(o, pkg) + multiset{d})[c] {
      ValidCount(o, pkg, c);
      ValidCount(o, Copied(pkg, d), c);
      SameClaimFacts(o, pkg, Copied(pkg, d), c);
    }
  }

  lemma CopyOfNoResult(o: Crypto, pkg: Package, c: Claim, x: Hex, d: Claim)
    requires Acquires(o, pkg, c, x) && d in Valid(o, pkg) && d != c
    ensures Acquires(o, Copied(pkg, d), c, x)
  {
    ValidWithCopy(o, pkg, d);
    TwoAtLeast(Valid(o, pkg), c, d);
    AcquiresTransfers(o, pkg, Copied(pkg, d), c, x);
  }

  lemma TwoAtLeast<T>(m: multiset<T>, x: T, y: T)
    requires x in m && y in m && x != y
    ensures |m| > 1
  {
    assert |m - multiset{x}| == |m| - 1 && y in m - multiset{x};
  }

  /**
   What acquires in a package with a copied claim acquires without the copy, and the copied claim is an attested
   NO_RESULT.
   */
  lemma WithoutCopy(o: Crypto, pkg: Package, d: Claim, c: Claim, x: Hex)
    requires d in Valid(o, pkg) && Acquires(o, Copied(pkg, d), c, x)
    ensures Acquires(o, pkg, c, x) && AttestedNoResult(o, pkg, d)
  {
    var pkg' := Copied(pkg, d);
    ValidWithCopy(o, pkg, d);
    assert d != c && d in Valid(o, pkg');
    SameClaimFacts(o, pkg, pkg', d);
    AcquiresTransfers(o, pkg', pkg, c, x);
  }

  /**
   Listing a valid claim a second time, in any package: it acquires what it acquired before exactly when that claim is
   an attested NO_RESULT, and never anything else. A second copy of the chosen claim counts as a later attempt.
   */
  lemma DuplicateClaim(o: Crypto, pkg: Package, d: Claim, c: Claim, x: Hex)
    requires d in Valid(o, pkg)
    ensures Acquires(o, Copied(pkg, d), c, x) <==> Acquires(o, pkg, c, x) && AttestedNoResult(o, pkg, d)
  {
    if Acquires(o, Copied(pkg, d), c, x) {
      WithoutCopy(o, pkg, d, c, x);
    }
    if Acquires(o, pkg, c, x) && AttestedNoResult(o, pkg, d) {
      CopyOfNoResult(o, pkg, c, x, d);
    }
  }

  // ---------------------------------------------------------------- order of terminals

  /** The package with one more terminal, listed first. */
  function Prepended(pkg: Package, u: Terminal): Package
  {
    pkg.(terminals := [u] + pkg.terminals)
  }

  /** u is attested, names claim c, and repeats the result x. */
  predicate Repeats(o: Crypto, pkg: Package, c: Claim, x: Hex, u: Terminal)
  {
    && u.claimHash == o.claimHash(c) && o.terminalSigned(u, pkg.manifest.acq.provider)
    && u.status == Result && u.output == Some(x)
  }

  lemma PrependedFacts(o: Crypto, pkg: Package, c: Claim, x: Hex, u: Terminal, d: Claim)
    requires Repeats(o, pkg, c, x, u)
    ensures Valid(o, Prepended(pkg, u)) == Valid(o, pkg)
    ensures AttemptIndex(o, Prepended(pkg, u), d) == AttemptIndex(o, pkg, d)
    ensures TerminalsFor(o, Prepended(pkg, u), d)
         == (if o.claimHash(d) == o.claimHash(c) then [u] else []) + TerminalsFor(o, pkg, d)
  {
    var pkg' := Prepended(pkg, u);
    assert ([u] + pkg.terminals)[1..] == pkg.terminals;
    assert RunId(o, pkg') == RunId(o, pkg) && MaxAttempts(pkg') == MaxAttempts(pkg);
    forall e ensures Valid(o, pkg')[e] == Valid(o, pkg)[e] {
      ValidCount(o, pkg', e);
      ValidCount(o, pkg, e);
    }
  }

  /**
   Two attested terminals that differ only in their observed scope do not conflict, and the first one listed
   is used: repeating the result first keeps the verdict exactly when the repeated terminal covers the scope.
   */
  lemma FirstTerminalDecides(o: Crypto, pkg: Package, c: Claim, x: Hex, u: Terminal)
    requires Acquires(o, pkg, c, x) && Repeats(o, pkg, c, x, u)
    ensures (exists c', x' :: Acquires(o, Prepended(pkg, u), c', x')) <==> pkg.manifest.req.requiredScope <= u.scope
  {
    var pkg' := Prepended(pkg, u);
    forall c', x' | Acquires(o, pkg', c', x') ensures pkg.manifest.req.requiredScope <= u.scope {
      PrependedChosen(o, pkg, c, x, u, c', x');
    }
    if pkg.manifest.req.requiredScope <= u.scope {
      PrependKeeps(o, pkg, c, x, u);
    }
  }

  lemma PrependedChosen(o: Crypto, pkg: Package, c: Claim, x: Hex, u: Terminal, c': Claim, x': Hex)
    requires c in Valid(o, pkg) && Repeats(o, pkg, c, x, u) && Acquires(o, Prepended(pkg, u), c', x')
    ensures pkg.manifest.req.requiredScope <= u.scope
  {
    PrependedFacts(o, pkg, c, x, u, c);
    assert !AttestedNoResult(o, Prepended(pkg, u), c);
    assert c' == c;
  }

  lemma PrependKeeps(o: Crypto, pkg: Package, c: Claim, x: Hex, u: Terminal)
    requires Acquires(o, pkg, c, x) && Repeats(o, pkg, c, x, u) && pkg.manifest.req.requiredScope <= u.scope
    ensures Acquires(o, Prepended(pkg, u), c, x)
  {
    var pkg' := Prepended(pkg, u);
    PrependedFacts(o, pkg, c, x, u, c);
    assert ResultFor(o, pkg', c, x);
    forall d | d in Valid(o, pkg') && d != c
      ensures AttemptIndex(o, pkg', d) < AttemptIndex(o, pkg', c) && AttestedNoResult(o, pkg', d)
    {
      PrependedFacts(o, pkg, c, x, u, d);
      assert o.claimHash(d) != o.claimHash(c);
    }
    var entries := pkg.log.value.entries;
    var d :| DisputeBefore(o, pkg, entries, d, Valid(o, pkg));
    assert DisputeBefore(o, pkg', entries, d, Valid(o, pkg'));
  }
}
