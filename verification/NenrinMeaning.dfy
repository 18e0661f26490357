/** What an accepted NENRIN bundle is, read off its records alone, and that the procedure accepts exactly those. */
module NenrinMeaning {
  import opened Basics
  import opened CanonicalJson
  import opened Nenrin
  import opened NenrinAcceptance

  // ----- Ids and signatures, from the records

  /** The record without the members of the given names. */
  function Without(r: Record, keys: set<Text>): Record
  {
    if r == [] then [] else (if r[0].key in keys then [] else [r[0]]) + Without(r[1..], keys)
  }

  /** The members an id and a signature do not cover. */
  function Uncovered(w: World, part: Part): set<Text>
  {
    match part
    case Obs => {w.Key(EvidenceId), w.Key(WitnessSig), w.Key(EdgeSig), w.Key(Consent)}
    case GrantPart => {w.Key(GrantRef), w.Key(CallerSig), w.Key(ActionBinding)}
    case ReceiptPart => {w.Key(ReceiptId), w.Key(ProviderSig), w.Key(ActionBinding)}
    case IntentPart => {w.Key(IntentId), w.Key(IntentSig), w.Key(ActionBinding)}
  }

  function Body(w: World, r: Record, part: Part): Json
  {
    Obj(Without(r, Uncovered(w, part)))
  }

  lemma {:induction false} BodyIsPreimage(w: World, r: Record, part: Part)
    ensures Without(r, Uncovered(w, part)) == Preimage(w, r, part)
  {
    if r != [] { BodyIsPreimage(w, r[1..], part); }
  }

  /** Under the given name the record carries the digest of its body's canonical text. */
  ghost predicate CarriesId(w: World, r: Record, part: Part, name: Name)
  {
    exists t :: TextOf(Body(w, r, part)) == Some(t) && Lookup(r, w.Key(name)) == Some(Str(w.Hash(t)))
  }

  /** Signer and signature are strings, and the signature is the signer's over the value's canonical text. */
  ghost predicate SignedOver(w: World, signer: Option<Json>, sig: Option<Json>, v: Json)
  {
    exists a, g, t :: signer == Some(Str(a)) && sig == Some(Str(g)) && TextOf(v) == Some(t) && w.signed(a, g, t)
  }

  lemma CarriesIsRecomputes(w: World, r: Record, part: Part, name: Name)
    ensures CarriesId(w, r, part, name) <==> Recomputes(w, r, part, name)
  {
    BodyIsPreimage(w, r, part);
  }

  lemma SignedIsVerifies(w: World, signer: Option<Json>, sig: Option<Json>, v: Json)
    ensures SignedOver(w, signer, sig, v) <==>
      SigVerifies(w, if signer.Some? then signer.value else Null, if sig.Some? then sig.value else Null, v)
  {
  }

  /** The record is signed by the one it names, over its body. */
  ghost predicate Signed(w: World, r: Record, part: Part, signer: Name, sig: Name)
  {
    SignedOver(w, Get(w, r, signer), Get(w, r, sig), Body(w, r, part))
  }

  lemma SignedIsSignedBy(w: World, r: Record, part: Part, signer: Name, sig: Name)
    ensures Signed(w, r, part, signer, sig) <==> SignedBy(w, r, part, signer, sig)
  {
    BodyIsPreimage(w, r, part);
    SignedIsVerifies(w, Get(w, r, signer), Get(w, r, sig), Body(w, r, part));
  }

  // ----- Equality

  /** The value with truth values read as integers, at every depth. */
  function Loose(v: Json): Json
  {
    match v
    case True => Int(1)
    case False => Int(0)
    case Arr(items) => Arr(LooseItems(items))
    case Obj(members) => Obj(LooseMembers(members))
    case _ => v
  }

  function LooseItems(items: seq<Json>): (r: seq<Json>)
    ensures |r| == |items| && forall i | 0 <= i < |items| :: r[i] == Loose(items[i])
  {
    if items == [] then [] else [Loose(items[0])] + LooseItems(items[1..])
  }

  function LooseMembers(members: seq<Member>): (r: seq<Member>)
    ensures |r| == |members|
    ensures forall i | 0 <= i < |members| :: r[i] == Member(members[i].key, Loose(members[i].value))
  {
    if members == [] then []
    else [Member(members[0].key, Loose(members[0].value))] + LooseMembers(members[1..])
  }

  /** The language's equality is sameness of values, truth values counted as integers. */
  lemma {:induction false} EqualIsSame(v: Json, u: Json)
    ensures Equal(v, u) <==> SameValue(Loose(v), Loose(u))
    decreases v
  {
    match v
    case Arr(xs) =>
      if u.Arr? && |u.items| == |xs| {
        forall i | 0 <= i < |xs| ensures Equal(xs[i], u.items[i]) <==> SameValue(Loose(xs[i]), Loose(u.items[i])) {
          EqualIsSame(xs[i], u.items[i]);
        }
      }
    case Obj(ms) =>
      if u.Obj? && |u.members| == |ms| {
        var a, b := LooseMembers(ms), LooseMembers(u.members);
        forall i | 0 <= i < |ms| ensures EqualMember(ms[i], u.members) <==> SameMember(a[i], b) {
          forall j | 0 <= j < |u.members|
            ensures Equal(ms[i].value, u.members[j].value) <==> SameValue(a[i].value, b[j].value)
          {
            EqualIsSame(ms[i].value, u.members[j].value);
          }
          if EqualMember(ms[i], u.members) {
            var j :| 0 <= j < |u.members| && u.members[j].key == ms[i].key && Equal(ms[i].value, u.members[j].value);
            assert b[j].key == a[i].key;
          }
          if SameMember(a[i], b) {
            var j :| 0 <= j < |b| && b[j].key == a[i].key && SameValue(a[i].value, b[j].value);
            assert u.members[j].key == ms[i].key;
          }
        }
      }
    case _ =>
  }

  // ----- The accepted bundle

  /** The bundle names a task, and every observation, receipt, non-empty grant and non-empty intent carries it. */
  ghost predicate TaskCarried(w: World, b: Bundle)
  {
    exists t :: t != [] && b.task == Str(t) && CarriedByAll(w, b, t)
  }

  ghost predicate CarriedByAll(w: World, b: Bundle, t: Text)
  {
    && (forall r | r in b.obs :: Get(w, r, TaskId) == Some(Str(t)))
    && (forall r | r in b.receipts :: Get(w, r, TaskId) == Some(Str(t)))
    && (b.grant.Present? && b.grant.record != [] ==> Get(w, b.grant.record, TaskId) == Some(Str(t)))
    && (b.intent.Present? && b.intent.record != [] ==> Get(w, b.intent.record, TaskId) == Some(Str(t)))
  }

  /** The witness is neither end of the hop, the id is the body's, and witness and origin signed where required. */
  ghost predicate Observed(w: World, sigs: bool, o: Record)
  {
    var hop := Members(Val(w, o, Hop));
    && !SameMaybe(Get(w, o, WitnessId), Get(w, hop, From))
    && !SameMaybe(Get(w, o, WitnessId), Get(w, hop, To))
    && CarriesId(w, o, Obs, EvidenceId)
    && (sigs ==> Signed(w, o, Obs, WitnessId, WitnessSig) && EdgeSealed(w, o, hop))
  }

  /** The hop's origin signed the task and the hop. */
  ghost predicate EdgeSealed(w: World, o: Record, hop: Record)
  {
    && Get(w, o, TaskId).Some? && Get(w, o, Hop).Some?
    && SignedOver(w, Get(w, hop, From), Get(w, o, EdgeSig),
                  Obj([Member(w.Key(TaskId), Get(w, o, TaskId).value), Member(w.Key(Hop), Get(w, o, Hop).value)]))
  }

  /** A linked path from a root leads to the observation. */
  ghost predicate Rooted(w: World, obs: seq<Record>, o: Record)
  {
    exists path :: Path(w, obs, path) && path[|path| - 1] == o
  }

  /**
   The receipt names the grant and the grant's provider, carries its id, and is that provider's where signatures
   count.
   */
  ghost predicate Own(w: World, sigs: bool, grant: Record, x: Record)
  {
    && SameMaybe(Get(w, x, GrantRef), Get(w, grant, GrantRef))
    && SameMaybe(Get(w, grant, ProviderId), Get(w, x, ProviderId))
    && CarriesId(w, x, ReceiptPart, ReceiptId)
    && (sigs ==> SignedOver(w, Get(w, grant, ProviderId), Get(w, x, ProviderSig), Body(w, x, ReceiptPart)))
  }

  ghost predicate BothSigned(w: World, grant: Record, x: Record)
  {
    Signed(w, grant, GrantPart, CallerId, CallerSig) && Signed(w, x, ReceiptPart, ProviderId, ProviderSig)
  }

  /** The grant names a provider, the receipt fulfils it, and caller and provider signed where signatures count. */
  ghost predicate NamedAndFulfilled(w: World, sigs: bool, grant: Record, x: Record)
  {
    && Get(w, grant, ProviderId).Some? && Get(w, grant, ProviderId).value != Null
    && Fulfils(w, grant, x, AReceipt)
    && (sigs ==> BothSigned(w, grant, x))
  }

  /**
   The grant names a provider; the first receipt fulfils it; caller and provider signed; no other receipt speaks
   against it.
   */
  ghost predicate Executed(w: World, sigs: bool, grant: Record, receipts: seq<Record>)
  {
    && receipts != []
    && NamedAndFulfilled(w, sigs, grant, receipts[0])
    && (forall x | x in receipts[1..] && (sigs ==> BothSigned(w, grant, x)) :: Fulfils(w, grant, x, AReceipt))
    && (forall x | x in receipts && Own(w, sigs, grant, x) :: Get(w, x, ReceiptId) == Get(w, receipts[0], ReceiptId))
  }

  /** The receipt binds no evidence, or names a kind, a lowercase hexadecimal digest and a system. */
  ghost predicate EvidenceFine(w: World, r: Record)
  {
    var e := Get(w, Members(Val(w, r, Outcome)), Evidence);
    || e.None? || e.value in {Null, False, Str([]), Int(0)}
    || (&& e.value.Obj?
        && Val(w, e.value.members, Kind)
             in {w.Word(BitcoinTx), w.Word(LedgerRecord), w.Word(DocumentSha256), w.Word(UrlSha256)}
        && (exists ref :: Val(w, e.value.members, Ref) == Str(ref) && |ref| == 64 && Lowercase(ref))
        && (exists system :: Val(w, e.value.members, System) == Str(system) && system != []))
  }

  /** Digits and the letters a to f. */
  predicate Lowercase(t: Text)
  {
    forall i | 0 <= i < |t| :: 48 <= t[i] <= 57 || 97 <= t[i] <= 102
  }

  /** Every observation is an object, observed as it should be, and rooted. */
  ghost predicate DelegationFine(w: World, b: Bundle)
  {
    b.raw != [] ==> |b.obs| == |b.raw| && forall o | o in b.obs :: Observed(w, b.sigs, o) && Rooted(w, b.obs, o)
  }

  ghost predicate Acceptable(w: World, b: Bundle)
  {
    && TaskCarried(w, b)
    && !b.malformed
    && DelegationFine(w, b)
    && (b.grant.Present? || b.receipts != [] ==>
          && b.grant.Present? && Executed(w, b.sigs, b.grant.record, b.receipts) && EvidenceFine(w, b.receipts[0])
          && (b.raw != [] ==> LinkedTo(w, b.obs, b.receipts[0])))
    && IntentFine(w, b)
  }

  /** Every observation that links to a receipt links to the id this receipt carries. */
  ghost predicate LinkedTo(w: World, obs: seq<Record>, r: Record)
  {
    forall o, id | o in obs && LinksTo(w, o, id) :: Get(w, r, ReceiptId) == Some(Str(id))
  }

  ghost predicate Dictionaries(b: Bundle)
  {
    && (b.grant.Present? ==> Dictionary(Obj(b.grant.record)))
    && (b.intent.Present? ==> Dictionary(Obj(b.intent.record)))
    && forall r | r in b.receipts :: Dictionary(Obj(r))
  }

  // ----- Step by step

  lemma TaskExactly(w: World, b: Bundle)
    ensures TaskCarried(w, b) <==> forall c :: !Refuses0(w, b, c)
  {
    if TaskCarried(w, b) {
      var t :| t != [] && b.task == Str(t) && CarriedByAll(w, b, t);
      forall i | 0 <= i < |Records(b)| ensures OfTask(w, b, Records(b)[i]) { RecordIsOne(b, Records(b)[i]); }
    }
    if forall c :: !Refuses0(w, b, c) {
      assert !Refuses0(w, b, TaskIdMissing) && !Refuses0(w, b, TaskIdMismatch);
      assert forall i | 0 <= i < |Records(b)| :: OfTask(w, b, Records(b)[i]);
      assert forall r | r in Records(b) :: OfTask(w, b, r);
      AllAreRecords(b);
      assert CarriedByAll(w, b, b.task.s);
    }
  }

  lemma RecordIsOne(b: Bundle, r: Record)
    requires r in Records(b)
    ensures r in b.obs || r in b.receipts || (b.grant == Present(r) && r != []) || (b.intent == Present(r) && r != [])
  {
  }

  lemma AllAreRecords(b: Bundle)
    ensures forall r | r in b.obs || r in b.receipts :: r in Records(b)
    ensures b.grant.Present? && b.grant.record != [] ==> b.grant.record in Records(b)
    ensures b.intent.Present? && b.intent.record != [] ==> b.intent.record in Records(b)
  {
    assert b.grant.Present? && b.grant.record != [] ==> b.grant.record in Filled(b.grant);
    assert b.intent.Present? && b.intent.record != [] ==> b.intent.record in Filled(b.intent);
  }

  lemma ObservedExactly(w: World, sigs: bool, o: Record)
    ensures Observed(w, sigs, o) <==> ObservationOk(w, sigs, o)
  {
    CarriesIsRecomputes(w, o, Obs, EvidenceId);
    SignedIsSignedBy(w, o, Obs, WitnessId, WitnessSig);
    var hop := Members(Val(w, o, Hop));
    if Get(w, o, TaskId).Some? && Get(w, o, Hop).Some? {
      SignedIsVerifies(w, Get(w, hop, From), Get(w, o, EdgeSig),
        Obj([Member(w.Key(TaskId), Val(w, o, TaskId)), Member(w.Key(Hop), Val(w, o, Hop))]));
    }
  }

  /** A chain is unbroken exactly when every observation has a path from a root. */
  lemma RootedExactly(w: World, obs: seq<Record>)
    ensures Chained(w, obs) <==> forall o | o in obs :: Rooted(w, obs, o)
  {
    if Chained(w, obs) {
      forall o | o in obs ensures Rooted(w, obs, o) {
        ChainNumbers(w, obs, o);
        var path := DelegationPath(w, obs, o, SeqOf(w, o).value);
      }
    }
    if forall o | o in obs :: Rooted(w, obs, o) {
      forall i | 0 <= i < |obs| ensures StepDown(w, obs, obs[i]) && Linked(w, obs, obs[i]) {
        assert Rooted(w, obs, obs[i]);
        var path :| Path(w, obs, path) && path[|path| - 1] == obs[i];
        PathEnd(w, obs, path);
      }
    }
  }

  lemma PathEnd(w: World, obs: seq<Record>, path: seq<Record>)
    requires Path(w, obs, path)
    ensures StepDown(w, obs, path[|path| - 1]) && Linked(w, obs, path[|path| - 1])
  {
    var n := |path| - 1;
    if n > 0 {
      assert PrecededAt(w, path, n) && path[n - 1] in obs;
      var i :| 0 <= i < |obs| && obs[i] == path[n - 1];
      assert Precedes(w, obs[i], path[n]);
      assert SeqUsed(w, obs, n - 1);
    }
  }

  lemma DelegationExactly(w: World, b: Bundle)
    ensures DelegationFine(w, b) <==> forall c :: !Refuses1(w, b, c)
  {
    RootedExactly(w, b.obs);
    forall o ensures Observed(w, b.sigs, o) <==> ObservationOk(w, b.sigs, o) { ObservedExactly(w, b.sigs, o); }
    if forall c :: !Refuses1(w, b, c) {
      assert !Refuses1(w, b, ObservationInvalid) && !Refuses1(w, b, ChainBroken);
    }
  }

  lemma OwnIsAuthentic(w: World, sigs: bool, grant: Record, x: Record)
    requires Get(w, grant, ProviderId).Some?
    ensures Own(w, sigs, grant, x) <==> Authentic(w, sigs, grant, x)
  {
    CarriesIsRecomputes(w, x, ReceiptPart, ReceiptId);
    BodyIsPreimage(w, x, ReceiptPart);
    SignedIsVerifies(w, Get(w, grant, ProviderId), Get(w, x, ProviderSig), Body(w, x, ReceiptPart));
  }

  lemma WeighsIsSigned(w: World, sigs: bool, grant: Record, x: Record)
    ensures Weighs(w, sigs, grant, x) <==> (sigs ==> BothSigned(w, grant, x))
  {
    SignedIsSignedBy(w, grant, GrantPart, CallerId, CallerSig);
    SignedIsSignedBy(w, x, ReceiptPart, ProviderId, ProviderSig);
  }

  lemma {:induction false} OtherExactly(w: World, sigs: bool, grant: Record, rs: seq<Record>, n: nat)
    requires 1 <= n <= |rs|
    ensures OtherBefore(w, sigs, grant, rs, n) <==> SomeFails(w, sigs, grant, rs[1..n])
  {
    if n > 1 {
      OtherExactly(w, sigs, grant, rs, n - 1);
      assert rs[1..n] == rs[1..n - 1] + [rs[n - 1]];
      SomeFailsOne(w, sigs, grant, rs[1..n - 1], rs[n - 1]);
    }
  }

  ghost predicate SomeFails(w: World, sigs: bool, grant: Record, rs: seq<Record>)
  {
    exists x :: x in rs && CountsAndFails(w, sigs, grant, x)
  }

  lemma SomeFailsOne(w: World, sigs: bool, grant: Record, rs: seq<Record>, x: Record)
    ensures SomeFails(w, sigs, grant, rs + [x]) <==> SomeFails(w, sigs, grant, rs) || CountsAndFails(w, sigs, grant, x)
  {
    if SomeFails(w, sigs, grant, rs) {
      var y :| y in rs && CountsAndFails(w, sigs, grant, y);
      assert y in rs + [x];
    }
    assert x in rs + [x];
  }

  lemma OthersExactly(w: World, sigs: bool, grant: Record, rs: seq<Record>)
    requires rs != [] && Dictionary(Obj(grant)) && forall r | r in rs :: Dictionary(Obj(r))
    ensures !OtherFails(w, sigs, grant, rs) <==>
      forall x | x in rs[1..] && (sigs ==> BothSigned(w, grant, x)) :: Fulfils(w, grant, x, AReceipt)
  {
    OtherExactly(w, sigs, grant, rs, |rs|);
    assert rs[1..|rs|] == rs[1..];
    forall x | x in rs[1..]
      ensures CountsAndFails(w, sigs, grant, x) <==>
        (sigs ==> BothSigned(w, grant, x)) && !Fulfils(w, grant, x, AReceipt)
    {
      assert x in rs;
      WeighsIsSigned(w, sigs, grant, x);
      PairPassesExactly(w, grant, x, AReceipt);
    }
  }

  lemma {:induction false} AuthenticMembers(w: World, sigs: bool, grant: Record, rs: seq<Record>, x: Record)
    ensures x in AuthenticOnly(w, sigs, grant, rs) <==> x in rs && Authentic(w, sigs, grant, x)
    decreases |rs|
  {
    if rs != [] {
      var n := |rs| - 1;
      AuthenticMembers(w, sigs, grant, rs[..n], x);
      assert rs == rs[..n] + [rs[n]];
    }
  }

  /** All receipts that are the provider's own have the first one's id, when that one is the provider's own. */
  lemma OneIdExactly(w: World, sigs: bool, grant: Record, rs: seq<Record>)
    requires rs != [] && Authentic(w, sigs, grant, rs[0]) && Get(w, grant, ProviderId).Some?
    ensures OneId(w, AuthenticOnly(w, sigs, grant, rs)) <==>
      forall x | x in rs && Own(w, sigs, grant, x) :: Get(w, x, ReceiptId) == Get(w, rs[0], ReceiptId)
  {
    var own := AuthenticOnly(w, sigs, grant, rs);
    AuthenticFirst(w, sigs, grant, rs);
    forall x ensures x in own <==> x in rs && Own(w, sigs, grant, x) {
      AuthenticMembers(w, sigs, grant, rs, x);
      OwnIsAuthentic(w, sigs, grant, x);
    }
    if OneId(w, own) {
      forall x | x in own ensures Get(w, x, ReceiptId) == Get(w, rs[0], ReceiptId) { OneIdAmong(w, own, x); }
    }
    if forall x | x in rs && Own(w, sigs, grant, x) :: Get(w, x, ReceiptId) == Get(w, rs[0], ReceiptId) {
      forall i | 0 <= i < |own| ensures Get(w, own[i], ReceiptId) == Get(w, own[0], ReceiptId) { assert own[i] in own; }
    }
  }

  /** What the execution codes ask of a grant and its receipts. */
  ghost predicate ExecutionClear(w: World, sigs: bool, grant: Record, rs: seq<Record>)
  {
    && rs != []
    && Val(w, grant, ProviderId) != Null
    && PairReason(w, grant, rs[0], AReceipt).None?
    && !OtherFails(w, sigs, grant, rs)
    && Weighs(w, sigs, grant, rs[0])
    && OneId(w, AuthenticOnly(w, sigs, grant, rs))
  }

  lemma FirstExactly(w: World, sigs: bool, grant: Record, x: Record)
    requires Dictionary(Obj(grant)) && Dictionary(Obj(x))
    ensures NamedAndFulfilled(w, sigs, grant, x) <==>
      Val(w, grant, ProviderId) != Null && PairReason(w, grant, x, AReceipt).None? && Weighs(w, sigs, grant, x)
    ensures NamedAndFulfilled(w, sigs, grant, x) ==> Authentic(w, sigs, grant, x)
  {
    PairPassesExactly(w, grant, x, AReceipt);
    WeighsIsSigned(w, sigs, grant, x);
    if NamedAndFulfilled(w, sigs, grant, x) { PrimaryAuthentic(w, sigs, grant, x); }
  }

  lemma ExecutedExactly(w: World, sigs: bool, grant: Record, rs: seq<Record>)
    requires Dictionary(Obj(grant)) && forall r | r in rs :: Dictionary(Obj(r))
    ensures Executed(w, sigs, grant, rs) <==> ExecutionClear(w, sigs, grant, rs)
  {
    if rs != [] {
      assert rs[0] in rs;
      FirstExactly(w, sigs, grant, rs[0]);
      OthersExactly(w, sigs, grant, rs);
      if NamedAndFulfilled(w, sigs, grant, rs[0]) { OneIdExactly(w, sigs, grant, rs); }
    }
  }

  /** No execution code holds where there is nothing to compare, or where the comparison is clear. */
  ghost predicate ExecutionFine(w: World, b: Bundle)
  {
    && !b.malformed
    && (b.grant.Present? || b.receipts != [] ==>
          b.grant.Present? && ExecutionClear(w, b.sigs, b.grant.record, b.receipts))
  }

  /** Where the comparison is clear, the first receipt is reconciled. */
  lemma ClearReconciles(w: World, b: Bundle)
    requires b.grant.Present? && ExecutionClear(w, b.sigs, b.grant.record, b.receipts)
    ensures Reconciled(w, b) == Some(b.receipts[0]) && AuthenticOnly(w, b.sigs, b.grant.record, b.receipts) != []
  {
    PrimaryAuthentic(w, b.sigs, b.grant.record, b.receipts[0]);
    AuthenticFirst(w, b.sigs, b.grant.record, b.receipts);
  }

  lemma FineHasNoCode(w: World, b: Bundle, c: Code)
    requires ExecutionFine(w, b)
    ensures !Refuses2(w, b, c)
  {
    if b.grant.Present? { ClearReconciles(w, b); }
  }

  lemma NoneMalformed(w: World, b: Bundle)
    requires AllRefusalsClear(w, b)
    ensures !b.malformed && (Paired(b) ==> !OtherFails(w, b.sigs, b.grant.record, b.receipts))
  {
    NotRefused(w, b, ExecutionInvalid);
  }

  lemma NoReceiptAlone(w: World, b: Bundle)
    requires AllRefusalsClear(w, b) && !b.grant.Present?
    ensures b.receipts == []
  {
    NotRefused(w, b, IncompletePair);
  }

  lemma NoCodeIsFine(w: World, b: Bundle)
    requires AllRefusalsClear(w, b)
    ensures ExecutionFine(w, b)
  {
    NoneMalformed(w, b);
    if b.grant.Present? { ClearExecution(w, b); } else { NoReceiptAlone(w, b); }
  }

  /** The intent, where there is one, comes with a grant that it fulfils, and is signed where required. */
  ghost predicate IntentFine(w: World, b: Bundle)
  {
    && b.intent != Malformed
    && (b.intent.Present? ==>
          && b.grant.Present? && Fulfils(w, b.grant.record, b.intent.record, AnIntent)
          && (b.sigs ==> Signed(w, b.intent.record, IntentPart, ProviderId, IntentSig)))
  }

  lemma IntentHasNoCode(w: World, b: Bundle, c: Code)
    requires Dictionaries(b) && IntentFine(w, b)
    ensures !Refuses3(w, b, c)
  {
    if b.intent.Present? {
      SignedIsSignedBy(w, b.intent.record, IntentPart, ProviderId, IntentSig);
      PairPassesExactly(w, b.grant.record, b.intent.record, AnIntent);
    }
  }

  lemma NoCodeIsIntent(w: World, b: Bundle)
    requires Dictionaries(b) && AllRefusalsClear(w, b)
    ensures IntentFine(w, b)
  {
    assert b.intent != Malformed by { NotRefusedLater(w, b, PreflightInvalid); }
    if b.intent.Present? {
      ClearIntent(w, b);
      SignedIsSignedBy(w, b.intent.record, IntentPart, ProviderId, IntentSig);
      PairPassesExactly(w, b.grant.record, b.intent.record, AnIntent);
    }
  }

  lemma EvidenceExactly(w: World, r: Record)
    ensures EvidenceFine(w, r) <==> Falsy(EvidenceOf(w, r)) || EvidenceForm(w, EvidenceOf(w, r).value)
  {
  }

  lemma {:induction false} LinkComesFrom(w: World, obs: seq<Record>, id: Text) returns (o: Record)
    requires id in Links(w, obs)
    ensures o in obs && LinksTo(w, o, id)
    decreases |obs|
  {
    var n := |obs| - 1;
    assert obs == obs[..n] + [obs[n]];
    if id in LinkOf(w, obs[n]) {
      o := obs[n];
      var ref, prefix := Val(w, Members(Val(w, o, Conduct)), DetailRef), w.Key(ExecPrefix);
      assert ref.s == prefix + ref.s[|prefix|..];
    } else {
      o := LinkComesFrom(w, obs[..n], id);
    }
  }

  lemma LinksExactly(w: World, obs: seq<Record>, r: Record)
    requires Recomputes(w, r, ReceiptPart, ReceiptId)
    ensures LinkedTo(w, obs, r) <==> !LinksElsewhere(w, obs, r)
  {
    if LinkedTo(w, obs, r) {
      forall l | l in Links(w, obs) ensures Id(w, r, ReceiptPart) == Some(l) { var o := LinkComesFrom(w, obs, l); }
    }
    if !LinksElsewhere(w, obs, r) {
      forall o, id | o in obs && LinksTo(w, o, id) ensures Get(w, r, ReceiptId) == Some(Str(id)) {
        LinkListed(w, obs, o, id);
      }
    }
  }

  lemma EvidenceAndLinks(w: World, b: Bundle)
    requires b.grant.Present? && ExecutionClear(w, b.sigs, b.grant.record, b.receipts)
    ensures EvidenceFine(w, b.receipts[0]) <==> !Refuses4(w, b, EvidenceInvalid)
    ensures (b.raw != [] ==> LinkedTo(w, b.obs, b.receipts[0])) <==> !Refuses5(w, b, LinkageMismatch)
  {
    ClearReconciles(w, b);
    EvidenceExactly(w, b.receipts[0]);
    IdentityExactly(w, b.grant.record, b.receipts[0], AReceipt);
    LinksExactly(w, b.obs, b.receipts[0]);
  }

  lemma NoLaterCode(w: World, b: Bundle, c: Code)
    requires ExecutionFine(w, b)
    requires b.grant.Present? ==> EvidenceFine(w, b.receipts[0])
    requires b.grant.Present? && b.raw != [] ==> LinkedTo(w, b.obs, b.receipts[0])
    ensures !Refuses4(w, b, c) && !Refuses5(w, b, c)
  {
    if b.grant.Present? {
      EvidenceAndLinks(w, b);
    } else {
      assert Reconciled(w, b) == None && Target(w, b) == None;
    }
  }

  lemma AcceptableIsFine(w: World, b: Bundle)
    requires Dictionaries(b) && Acceptable(w, b)
    ensures ExecutionFine(w, b)
  {
    if b.grant.Present? { ExecutedExactly(w, b.sigs, b.grant.record, b.receipts); }
  }

  lemma AcceptableHasNoCode(w: World, b: Bundle, c: Code)
    requires Dictionaries(b) && Acceptable(w, b)
    ensures !Refuses(w, b, c)
  {
    assert !Refuses0(w, b, c) by { TaskExactly(w, b); }
    assert !Refuses1(w, b, c) by { DelegationExactly(w, b); }
    AcceptableIsFine(w, b);
    FineHasNoCode(w, b, c);
    IntentHasNoCode(w, b, c);
    NoLaterCode(w, b, c);
  }

  lemma NoCodeIsAcceptable(w: World, b: Bundle)
    requires Dictionaries(b) && AllRefusalsClear(w, b)
    ensures Acceptable(w, b)
  {
    forall c ensures !Refuses0(w, b, c) && !Refuses1(w, b, c) { assert !Refuses(w, b, c); }
    TaskExactly(w, b);
    DelegationExactly(w, b);
    NotRefusedLater(w, b, EvidenceInvalid);
    NotRefusedLater(w, b, LinkageMismatch);
    NoCodeIsFine(w, b);
    NoCodeIsIntent(w, b);
    if b.grant.Present? {
      ExecutedExactly(w, b.sigs, b.grant.record, b.receipts);
      EvidenceAndLinks(w, b);
    }
  }

  lemma ReadIsDictionaries(w: World, v: Json)
    requires Dictionary(v)
    ensures Dictionaries(Read(w, v))
  {
    RecordsDictionary(w, v);
    if Read(w, v).intent.Present? { IntentDictionary(w, v); }
  }

  /**
   The procedure accepts exactly the acceptable bundles: one task throughout, independently witnessed, signed and rooted
   observations, a grant signed by its caller and executed by the provider it names, evidence and links in order, and an
   intent that fulfils the grant.
   */
  lemma AcceptedExactly(w: World, v: Json)
    requires Dictionary(v)
    ensures AllRefusalsClear(w, Read(w, v)) <==> Acceptable(w, Read(w, v))
  {
    var b := Read(w, v);
    ReadIsDictionaries(w, v);
    if AllRefusalsClear(w, b) { NoCodeIsAcceptable(w, b); }
    if Acceptable(w, b) {
      forall c ensures !Refuses(w, b, c) { AcceptableHasNoCode(w, b, c); }
    }
  }

  /**
   In an accepted bundle the task is a non-empty string that every observation, receipt, non-empty grant and intent
   carries.
   */
  lemma AcceptedTask(w: World, b: Bundle)
    requires AllRefusalsClear(w, b)
    ensures TaskCarried(w, b)
  {
    forall c ensures !Refuses0(w, b, c) { assert !Refuses(w, b, c); }
    TaskExactly(w, b);
  }

  // ----- Reading the bundle

  /** The slot's value is missing, null or false; or an object, which is the record; or neither. */
  ghost predicate SlotRead(v: Option<Json>, slot: Slot)
  {
    match slot
    case Absent => v == None || v == Some(Null) || v == Some(False)
    case Present(r) => v == Some(Obj(r))
    case Malformed => v.Some? && v.value !in {Null, False} && !v.value.Obj?
  }

  /** The list's elements; nothing for a member that is not a list. */
  ghost predicate ListRead(v: Option<Json>, items: seq<Json>)
  {
    if v.Some? && v.value.Arr? then v == Some(Arr(items)) else items == []
  }

  lemma {:induction false} ObjectsExactly(vs: seq<Json>, r: Record)
    ensures r in Objects(vs) <==> Obj(r) in vs
    ensures |Objects(vs)| == |vs| <==> forall x | x in vs :: x.Obj?
    ensures |Objects(vs)| <= |vs|
  {
    if vs != [] {
      ObjectsExactly(vs[1..], r);
      assert vs == [vs[0]] + vs[1..];
    }
  }

  /**
   How a bundle object is read: signatures count unless they are switched off by the value false; each slot and each
   list from its own member; objects only; a grant or receipt that is neither absent nor an object makes the bundle
   malformed.
   */
  lemma ReadExactly(w: World, m: Record)
    ensures
      var b := Read(w, Obj(m));
      && (b.sigs <==> Lookup(m, w.Key(RequireSignatures)) != Some(False))
      && (if Get(w, m, TaskId).Some? then Get(w, m, TaskId) == Some(b.task) else b.task == Null)
      && ListRead(Get(w, m, Observations), b.raw) && (forall r :: r in b.obs <==> Obj(r) in b.raw)
      && SlotRead(Get(w, m, Grant), b.grant) && SlotRead(Get(w, m, Intent), b.intent)
      && exists first: Slot, more: seq<Json> ::
           && SlotRead(Get(w, m, Receipt), first) && ListRead(Get(w, m, Receipts), more)
           && (b.malformed <==> b.grant == Malformed || first == Malformed || exists x :: x in more && !x.Obj?)
           && b.receipts == Distinct((if first.Present? then [first.record] else []) + Objects(more))
  {
    var b := Read(w, Obj(m));
    var first, more := SlotOf(Val(w, m, Receipt)), ListOf(Val(w, m, Receipts));
    forall r ensures r in b.obs <==> Obj(r) in b.raw { ObjectsExactly(b.raw, r); }
    assert SlotRead(Get(w, m, Receipt), first) && ListRead(Get(w, m, Receipts), more);
    assert SomeMalformed(more) <==> exists x :: x in more && !x.Obj?;
  }

  // ----- Sequence numbers and disagreement

  /** A sequence number is an integer member of a hop that is an object; a truth value is none. */
  lemma SeqExactly(w: World, o: Record, n: int)
    ensures SeqOf(w, o) == Some(n) <==>
      exists hop :: Get(w, o, Hop) == Some(Obj(hop)) && Lookup(hop, w.Key(Seq)) == Some(Int(n))
  {
  }

  /**
   Two observations report on one position: both without a hop object, or with one hop sequence member, or both
   without it.
   */
  ghost predicate OnePosition(w: World, a: Record, b: Record)
  {
    var h, k := Get(w, a, Hop), Get(w, b, Hop);
    if h.Some? && h.value.Obj? then
      k.Some? && k.value.Obj? && Lookup(h.value.members, w.Key(Seq)) == Lookup(k.value.members, w.Key(Seq))
    else
      k.None? || !k.value.Obj?
  }

  /** The conduct verdict an observation reports, if it reports one. */
  function ConductVerdict(w: World, o: Record): Option<Json>
  {
    var c := Get(w, o, Conduct);
    if c.Some? && c.value.Obj? then Lookup(c.value.members, w.Key(VerdictName)) else None
  }

  /** Disagreement is found exactly when two observations report different verdicts on one position. */
  lemma DisagreementExactly(w: World, b: Bundle)
    ensures Finds(w, b, WitnessDisagreement) <==>
      exists x, y :: x in b.obs && y in b.obs && OnePosition(w, x, y) && ConductVerdict(w, x) != ConductVerdict(w, y)
  {
    forall x, y
      ensures Disagree(w, x, y) <==> OnePosition(w, x, y) && ConductVerdict(w, x) != ConductVerdict(w, y)
    {
      DisagreeIsSpelled(w, x, y);
    }
    if x, y :| x in b.obs && y in b.obs && OnePosition(w, x, y) && ConductVerdict(w, x) != ConductVerdict(w, y) {
      var i :| 0 <= i < |b.obs| && b.obs[i] == x;
      var j :| 0 <= j < |b.obs| && b.obs[j] == y;
      assert Disagree(w, b.obs[i], b.obs[j]);
    }
  }

  lemma DisagreeIsSpelled(w: World, x: Record, y: Record)
    ensures Disagree(w, x, y) <==> OnePosition(w, x, y) && ConductVerdict(w, x) != ConductVerdict(w, y)
  {
  }

  /** The record carries its id, is bound to the grant and its provider, and lies in its window; its action aside. */
  ghost predicate UnderGrant(w: World, grant: Record, x: Record, kind: Bound)
  {
    && CarriesId(w, grant, GrantPart, GrantRef) && CarriesId(w, x, kind.part, kind.id)
    && (kind.part == ReceiptPart ==> BindingHolds(w, grant, Action)) && BindingHolds(w, x, kind.action)
    && Get(w, x, GrantRef) == Get(w, grant, GrantRef)
    && (Val(w, grant, ProviderId) == Null || SameMaybe(Get(w, grant, ProviderId), Get(w, x, ProviderId)))
    && WithinBounds(w, grant, Val(w, x, kind.time))
  }

  /**
   An open grant, and one to the caller itself, are found exactly through a first receipt or an intent placed under
   it.
   */
  lemma AuthorityExactly(w: World, b: Bundle)
    ensures
      var through := b.grant.Present? &&
        (|| (b.receipts != [] && UnderGrant(w, b.grant.record, b.receipts[0], AReceipt))
         || (b.intent.Present? && UnderGrant(w, b.grant.record, b.intent.record, AnIntent)));
      && (Finds(w, b, OpenGrant) <==> through && Val(w, b.grant.record, ProviderId) == Null)
      && (Finds(w, b, SelfAuthorized) <==>
            && through && Val(w, b.grant.record, ProviderId) != Null
            && SameMaybe(Get(w, b.grant.record, ProviderId), Get(w, b.grant.record, CallerId)))
  {
    AuthorityFound(w, b, OpenGrant);
    AuthorityFound(w, b, SelfAuthorized);
    if b.grant.Present? {
      if b.receipts != [] { PlacedExactly(w, b.grant.record, b.receipts[0], AReceipt); }
      if b.intent.Present? { PlacedExactly(w, b.grant.record, b.intent.record, AnIntent); }
    }
  }

  lemma AuthorityFound(w: World, b: Bundle, f: Finding)
    requires f == OpenGrant || f == SelfAuthorized
    ensures Finds(w, b, f) <==>
      || (Paired(b) && AuthorityFinding(w, b.grant.record, b.receipts[0], AReceipt, f))
      || (b.intent.Present? && b.grant.Present? && AuthorityFinding(w, b.grant.record, b.intent.record, AnIntent, f))
  {
  }

  lemma PlacedExactly(w: World, grant: Record, x: Record, kind: Bound)
    ensures Placed(w, grant, x, kind) <==> UnderGrant(w, grant, x, kind)
  {
    IdentityExactly(w, grant, x, kind);
    PlaceExactly(w, grant, x, kind);
    CarriesIsRecomputes(w, grant, GrantPart, GrantRef);
    CarriesIsRecomputes(w, x, kind.part, kind.id);
  }
}
