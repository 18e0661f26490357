/**
 The NENRIN provenance bundle verifier: delegation observations, a grant, receipts reconciled against it, an intent,
 evidence.
 */
module Nenrin {
  import opened Basics
  import opened CanonicalJson

  /** An object's members; a parsed record. */
  type Record = seq<Member>

  /** The member names and fixed words the procedure reads. */
  datatype Name =
    | Action | ActionBinding | Alg | CallerId | CallerSig | Canonicalization | Conduct | Consent | DeclaredAt
    | DetailRef | DigestName | EdgeSig | Evidence | EvidenceId | ExecutedAction | ExecutedAt | From | Grant | GrantRef
    | Hop | Intent | IntentId | IntentSig | Kind | NotAfter | NotBefore | Observations | Outcome | PreimageProfile
    | PrevEvidenceId | ProposedAction | ProviderId | ProviderSig | Receipt | ReceiptId | Receipts | Ref
    | RequireSignatures | Seq
    | System | TaskId | To | TypeName | ValueName | VerdictName | WitnessId | WitnessSig
    | CanonicalRequestDigest | Sha256 | MusubiCanonical | ActionProfile | BitcoinTx | LedgerRecord | DocumentSha256
    | UrlSha256 | ExecPrefix

  /** Spelling, hashing, signature checking and timestamp reading, which the procedure takes as they are. */
  datatype World = World(
    spell: Name -> Text, digest: Text -> Text, signed: (Text, Text, Text) -> bool, readInstant: Text -> Option<int>)
  {
    function Key(n: Name): Text { spell(n) }

    function Word(n: Name): Json { Str(spell(n)) }

    /** The hexadecimal digest of a canonical text. */
    function Hash(t: Text): Text { digest(t) }

    /** Only strings resolve to keys, and only strings hold signatures. */
    predicate Signed(signer: Json, sig: Json, t: Text) { signer.Str? && sig.Str? && signed(signer.s, sig.s, t) }

    function Instant(v: Json): Option<int> { if v.Str? then readInstant(v.s) else None }
  }

  // ----- Reading members

  function Lookup(r: Record, key: Text): Option<Json>
  {
    if r == [] then None else if r[0].key == key then Some(r[0].value) else Lookup(r[1..], key)
  }

  /** A member, None where it is missing. */
  function Get(w: World, r: Record, n: Name): Option<Json>
  {
    Lookup(r, w.Key(n))
  }

  /** A member, null where it is missing. */
  function Val(w: World, r: Record, n: Name): Json
  {
    match Get(w, r, n)
    case None => Null
    case Some(v) => v
  }

  /** The members of an object value; none for any other value. */
  function Members(v: Json): Record
  {
    if v.Obj? then v.members else []
  }

  /** Equality as the language compares values: a truth value equals its integer, and member order does not matter. */
  predicate Equal(v: Json, u: Json)
    decreases v
  {
    match v
    case True => u == True || u == Int(1)
    case False => u == False || u == Int(0)
    case Int(n) => u == v || (n == 1 && u == True) || (n == 0 && u == False)
    case Arr(xs) => u.Arr? && |u.items| == |xs| && forall i | 0 <= i < |xs| :: Equal(xs[i], u.items[i])
    case Obj(ms) => u.Obj? && |u.members| == |ms| && forall i | 0 <= i < |ms| :: EqualMember(ms[i], u.members)
    case _ => v == u
  }

  predicate EqualMember(m: Member, ns: seq<Member>)
    decreases m
  {
    exists j | 0 <= j < |ns| :: ns[j].key == m.key && Equal(m.value, ns[j].value)
  }

  /** Missing equals missing. */
  predicate SameMaybe(a: Option<Json>, b: Option<Json>)
  {
    if a.None? || b.None? then a.None? && b.None? else Equal(a.value, b.value)
  }

  // ----- Ids

  datatype Part = Obs | GrantPart | ReceiptPart | IntentPart

  /** The members left out of a record's preimage. */
  predicate Derived(w: World, part: Part, key: Text)
  {
    match part
    case Obs => key == w.Key(EvidenceId) || key == w.Key(WitnessSig) || key == w.Key(EdgeSig) || key == w.Key(Consent)
    case GrantPart => key == w.Key(GrantRef) || key == w.Key(CallerSig) || key == w.Key(ActionBinding)
    case ReceiptPart => key == w.Key(ReceiptId) || key == w.Key(ProviderSig) || key == w.Key(ActionBinding)
    case IntentPart => key == w.Key(IntentId) || key == w.Key(IntentSig) || key == w.Key(ActionBinding)
  }

  function Preimage(w: World, r: Record, part: Part): Record
  {
    if r == [] then [] else (if Derived(w, part, r[0].key) then [] else [r[0]]) + Preimage(w, r[1..], part)
  }

  function TextOf(v: Json): Option<Text>
  {
    CanonicalText(Nenrin, v)
  }

  function DigestOf(w: World, v: Json): Option<Text>
  {
    match TextOf(v)
    case None => None
    case Some(t) => Some(w.Hash(t))
  }

  function Id(w: World, r: Record, part: Part): Option<Text>
  {
    DigestOf(w, Obj(Preimage(w, r, part)))
  }

  /** The record carries, under the given name, the id computed from its preimage. */
  predicate Recomputes(w: World, r: Record, part: Part, name: Name)
  {
    match Id(w, r, part)
    case None => false
    case Some(h) => Get(w, r, name) == Some(Str(h))
  }

  predicate SigVerifies(w: World, signer: Json, sig: Json, v: Json)
  {
    match TextOf(v)
    case None => false
    case Some(t) => w.Signed(signer, sig, t)
  }

  predicate SignedBy(w: World, r: Record, part: Part, signer: Name, sig: Name)
  {
    SigVerifies(w, Val(w, r, signer), Val(w, r, sig), Obj(Preimage(w, r, part)))
  }

  // ----- One grant against one receipt

  datatype Reason =
    | GrantRecomputeMismatch | ReceiptRecomputeMismatch | IntentRecomputeMismatch | BindingMalformed
    | BindingUnknownProfile | BindingMismatch | ReceiptUnbound | IntentUnbound | InvalidTimestamp
    | ProviderNotAuthorized | OutsideWindow | ActionDiverged

  /** The action binding is absent, or well formed and the digest of the record's action. */
  function BindingReason(w: World, r: Record, action: Name): Option<Reason>
  {
    match Get(w, r, ActionBinding)
    case None => None
    case Some(ab) =>
      var digest := Val(w, Members(ab), DigestName);
      var value := Val(w, Members(digest), ValueName);
      if !ab.Obj? || Val(w, ab.members, TypeName) != w.Word(CanonicalRequestDigest) then Some(BindingMalformed)
      else if !digest.Obj? || Val(w, digest.members, Alg) != w.Word(Sha256) || !value.Str? then Some(BindingMalformed)
      else if Val(w, ab.members, Canonicalization) != w.Word(MusubiCanonical)
           || Val(w, ab.members, PreimageProfile) != w.Word(ActionProfile) then Some(BindingUnknownProfile)
      else if Val(w, r, action) == Null || DigestOf(w, Val(w, r, action)) != Some(value.s) then Some(BindingMismatch)
      else None
  }

  predicate BoundOk(w: World, r: Record, n: Name)
  {
    Val(w, r, n) == Null || w.Instant(Val(w, r, n)).Some?
  }

  /** The instant is within the grant's bounds; an absent bound does not limit. */
  predicate InWindow(w: World, grant: Record, t: int)
  {
    && (match w.Instant(Val(w, grant, NotBefore)) case None => true case Some(b) => b <= t)
    && (match w.Instant(Val(w, grant, NotAfter)) case None => true case Some(a) => t <= a)
  }

  /** Missing, null, false, zero and the empty string never count as an action. */
  predicate Falsy(a: Option<Json>)
  {
    a.None? || a.value == Null || a.value == False || a.value == Str([]) || a.value == Int(0)
  }

  predicate ActionsEqual(a: Option<Json>, b: Option<Json>)
  {
    && !Falsy(a)
    && !Falsy(b)
    && TextOf(a.value).Some?
    && TextOf(a.value) == TextOf(b.value)
  }

  /** What a record bound to a grant is: a receipt or an intent. */
  datatype Bound = Bound(part: Part, id: Name, action: Name, time: Name, mismatch: Reason, unbound: Reason)

  const AReceipt: Bound :=
    Bound(ReceiptPart, ReceiptId, ExecutedAction, ExecutedAt, ReceiptRecomputeMismatch, ReceiptUnbound)
  const AnIntent: Bound :=
    Bound(IntentPart, IntentId, ProposedAction, DeclaredAt, IntentRecomputeMismatch, IntentUnbound)

  /** Whether grant and record recompute, and whether their bindings hold. */
  function IdentityReason(w: World, grant: Record, r: Record, b: Bound): Option<Reason>
  {
    if !Recomputes(w, grant, GrantPart, GrantRef) then Some(GrantRecomputeMismatch)
    else if !Recomputes(w, r, b.part, b.id) then Some(b.mismatch)
    else if b.part == ReceiptPart && BindingReason(w, grant, Action).Some? then BindingReason(w, grant, Action)
    else BindingReason(w, r, b.action)
  }

  /** Whether the record belongs to the grant, its provider and its window. */
  function PlaceReason(w: World, grant: Record, r: Record, b: Bound): Option<Reason>
  {
    var t := w.Instant(Val(w, r, b.time));
    var gp := Val(w, grant, ProviderId);
    if Get(w, r, GrantRef) != Get(w, grant, GrantRef) then Some(b.unbound)
    else if t.None? || !BoundOk(w, grant, NotBefore) || !BoundOk(w, grant, NotAfter) then Some(InvalidTimestamp)
    else if gp != Null && !SameMaybe(Some(gp), Get(w, r, ProviderId)) then Some(ProviderNotAuthorized)
    else if !InWindow(w, grant, t.value) then Some(OutsideWindow)
    else None
  }

  function PairReason(w: World, grant: Record, r: Record, b: Bound): Option<Reason>
  {
    if IdentityReason(w, grant, r, b).Some? then IdentityReason(w, grant, r, b)
    else if PlaceReason(w, grant, r, b).Some? then PlaceReason(w, grant, r, b)
    else if !ActionsEqual(Get(w, grant, Action), Get(w, r, b.action)) then Some(ActionDiverged)
    else None
  }

  /** The comparison reached the point where it looks at who is authorised. */
  predicate Placed(w: World, grant: Record, r: Record, b: Bound)
  {
    IdentityReason(w, grant, r, b).None? && PlaceReason(w, grant, r, b).None?
  }

  // ----- The bundle

  datatype Slot = Absent | Malformed | Present(record: Record)

  /** Missing, null and false leave a slot empty; anything else but an object is malformed. */
  function SlotOf(v: Json): Slot
  {
    if v == Null || v == False then Absent else if v.Obj? then Present(v.members) else Malformed
  }

  function ListOf(v: Json): seq<Json>
  {
    if v.Arr? then v.items else []
  }

  /** The objects of a list, in order. */
  function Objects(vs: seq<Json>): seq<Record>
  {
    if vs == [] then [] else (if vs[0].Obj? then [vs[0].members] else []) + Objects(vs[1..])
  }

  /** The first of each group of records with one canonical text; a record without one is always kept. */
  function Distinct(rs: seq<Record>): seq<Record>
  {
    if rs == [] then []
    else
      var before := Distinct(rs[..|rs| - 1]);
      if Repeated(before, rs[|rs| - 1]) then before else before + [rs[|rs| - 1]]
  }

  predicate Repeated(kept: seq<Record>, r: Record)
  {
    TextOf(Obj(r)).Some? && exists i | 0 <= i < |kept| :: TextOf(Obj(kept[i])) == TextOf(Obj(r))
  }

  /** The bundle as the steps see it. */
  datatype Bundle = Bundle(
    sigs: bool, task: Json, raw: seq<Json>, obs: seq<Record>, grant: Slot, intent: Slot, receipts: seq<Record>,
    malformed: bool)

  function Candidates(first: Slot, more: seq<Json>): seq<Record>
  {
    (if first.Present? then [first.record] else []) + Objects(more)
  }

  predicate SomeMalformed(vs: seq<Json>)
  {
    exists i | 0 <= i < |vs| :: !vs[i].Obj?
  }

  function Read(w: World, v: Json): Bundle
  {
    var b := Members(v);
    var raw, more := ListOf(Val(w, b, Observations)), ListOf(Val(w, b, Receipts));
    var grant, first := SlotOf(Val(w, b, Grant)), SlotOf(Val(w, b, Receipt));
    Bundle(Val(w, b, RequireSignatures) != False, Val(w, b, TaskId), raw, Objects(raw), grant,
           SlotOf(Val(w, b, Intent)), Distinct(Candidates(first, more)),
           grant == Malformed || first == Malformed || SomeMalformed(more))
  }

  // ----- What is refused and what is found

  datatype Code =
    | TaskIdMissing | TaskIdMismatch | ObservationInvalid | ChainBroken | ExecutionInvalid | IncompletePair
    | ExecutionSignatureInvalid | Unreconciled | Equivocation | PreflightInvalid | PreflightWithoutGrant
    | PreflightSignatureInvalid | EvidenceInvalid | LinkageMismatch

  datatype Finding =
    | NoObservations | WitnessDisagreement | NoExecutionRecords | OpenGrant | SelfAuthorized
    | DeclaredExecutedDivergence | NoEvidenceBound | EvidenceBoundUnchecked | NoDigestLink

  predicate TaskNamed(b: Bundle)
  {
    b.task.Str? && b.task.s != []
  }

  /** The records whose task is compared; an empty grant or intent is passed over. */
  function Records(b: Bundle): seq<Record>
  {
    b.obs + Filled(b.grant) + Filled(b.intent) + b.receipts
  }

  function Filled(s: Slot): seq<Record>
  {
    if s.Present? && s.record != [] then [s.record] else []
  }

  predicate OfTask(w: World, b: Bundle, r: Record)
  {
    TaskNamed(b) && Get(w, r, TaskId) == Some(b.task)
  }

  /** The witness is neither end of the hop. */
  predicate Independent(w: World, o: Record)
  {
    var hop := Members(Val(w, o, Hop));
    && !SameMaybe(Get(w, o, WitnessId), Get(w, hop, From))
    && !SameMaybe(Get(w, o, WitnessId), Get(w, hop, To))
  }

  /** The edge is signed by the hop's origin over the task and the hop. */
  predicate EdgeSigned(w: World, o: Record)
  {
    && Get(w, o, TaskId).Some?
    && Get(w, o, Hop).Some?
    && SigVerifies(w, Val(w, Members(Val(w, o, Hop)), From), Val(w, o, EdgeSig),
                   Obj([Member(w.Key(TaskId), Val(w, o, TaskId)), Member(w.Key(Hop), Val(w, o, Hop))]))
  }

  predicate ObservationOk(w: World, sigs: bool, o: Record)
  {
    && Independent(w, o)
    && Recomputes(w, o, Obs, EvidenceId)
    && (sigs ==> SignedBy(w, o, Obs, WitnessId, WitnessSig) && EdgeSigned(w, o))
  }

  function SeqOf(w: World, o: Record): Option<int>
  {
    var s := Val(w, Members(Val(w, o, Hop)), Seq);
    if s.Int? then Some(s.n) else None
  }

  /** The sequence numbers in use are 0 up to some bound, with no gap. */
  predicate NoGap(w: World, obs: seq<Record>)
  {
    forall i | 0 <= i < |obs| :: StepDown(w, obs, obs[i])
  }

  /** A natural number, and the one below it is in use. */
  predicate StepDown(w: World, obs: seq<Record>, o: Record)
  {
    match SeqOf(w, o)
    case None => false
    case Some(s) => s == 0 || (s > 0 && SeqUsed(w, obs, s - 1))
  }

  predicate AllNumbered(w: World, obs: seq<Record>)
  {
    forall i | 0 <= i < |obs| :: SeqOf(w, obs[i]).Some?
  }

  predicate SeqUsed(w: World, obs: seq<Record>, s: int)
  {
    exists i | 0 <= i < |obs| :: SeqOf(w, obs[i]) == Some(s)
  }

  /** o names the id of an observation one step earlier; a root names null. */
  predicate Linked(w: World, obs: seq<Record>, o: Record)
  {
    if SeqOf(w, o) == Some(0) then Get(w, o, PrevEvidenceId) == Some(Null)
    else exists i | 0 <= i < |obs| :: Precedes(w, obs[i], o)
  }

  predicate Precedes(w: World, before: Record, o: Record)
  {
    && SeqOf(w, o).Some?
    && SeqOf(w, before) == Some(SeqOf(w, o).value - 1)
    && Id(w, before, Obs).Some?
    && Get(w, o, PrevEvidenceId) == Some(Str(Id(w, before, Obs).value))
  }

  predicate Chained(w: World, obs: seq<Record>)
  {
    NoGap(w, obs) && forall i | 0 <= i < |obs| :: Linked(w, obs, obs[i])
  }

  /** The hop position an observation reports under, and the conduct it reports. */
  function Spot(w: World, o: Record): Option<Option<Json>>
  {
    var hop := Val(w, o, Hop);
    if hop.Obj? then Some(Get(w, hop.members, Seq)) else None
  }

  function Reported(w: World, o: Record): Option<Json>
  {
    Get(w, Members(Val(w, o, Conduct)), VerdictName)
  }

  predicate Disagree(w: World, a: Record, b: Record)
  {
    Spot(w, a) == Spot(w, b) && Reported(w, a) != Reported(w, b)
  }

  /** The receipt is the named provider's own, for this grant. */
  predicate Authentic(w: World, sigs: bool, grant: Record, r: Record)
  {
    var gp := Val(w, grant, ProviderId);
    && SameMaybe(Get(w, r, GrantRef), Get(w, grant, GrantRef))
    && SameMaybe(Some(gp), Get(w, r, ProviderId))
    && Recomputes(w, r, ReceiptPart, ReceiptId)
    && (sigs ==> SigVerifies(w, gp, Val(w, r, ProviderSig), Obj(Preimage(w, r, ReceiptPart))))
  }

  function AuthenticOnly(w: World, sigs: bool, grant: Record, rs: seq<Record>): seq<Record>
  {
    if rs == [] then []
    else
      var before := AuthenticOnly(w, sigs, grant, rs[..|rs| - 1]);
      if Authentic(w, sigs, grant, rs[|rs| - 1]) then before + [rs[|rs| - 1]] else before
  }

  /** All the same receipt id. */
  predicate OneId(w: World, rs: seq<Record>)
  {
    forall i | 0 <= i < |rs| :: Get(w, rs[i], ReceiptId) == Get(w, rs[0], ReceiptId)
  }

  /** The one receipt the grant reconciles to. */
  function Reconciled(w: World, b: Bundle): Option<Record>
  {
    if !b.grant.Present? || Val(w, b.grant.record, ProviderId) == Null then None
    else
      var own := AuthenticOnly(w, b.sigs, b.grant.record, b.receipts);
      if own != [] && OneId(w, own) then Some(own[0]) else None
  }

  /** Both sides of an execution are there to compare. */
  predicate Paired(b: Bundle)
  {
    b.grant.Present? && b.receipts != []
  }

  /** Another receipt counts against the bundle only if it is signed, and so is the grant. */
  predicate Weighs(w: World, sigs: bool, grant: Record, r: Record)
  {
    sigs ==> SignedBy(w, grant, GrantPart, CallerId, CallerSig) && SignedBy(w, r, ReceiptPart, ProviderId, ProviderSig)
  }

  /** Some receipt other than the first counts and fails against the grant. */
  predicate OtherFails(w: World, sigs: bool, grant: Record, rs: seq<Record>)
  {
    OtherBefore(w, sigs, grant, rs, |rs|)
  }

  predicate OtherBefore(w: World, sigs: bool, grant: Record, rs: seq<Record>, n: nat)
    requires n <= |rs|
  {
    n > 1 && (OtherBefore(w, sigs, grant, rs, n - 1) || CountsAndFails(w, sigs, grant, rs[n - 1]))
  }

  predicate CountsAndFails(w: World, sigs: bool, grant: Record, r: Record)
  {
    Weighs(w, sigs, grant, r) && PairReason(w, grant, r, AReceipt).Some?
  }

  predicate EvidenceForm(w: World, e: Json)
  {
    && e.Obj?
    && Val(w, e.members, Kind) in [w.Word(BitcoinTx), w.Word(LedgerRecord), w.Word(DocumentSha256), w.Word(UrlSha256)]
    && Val(w, e.members, Ref).Str?
    && Hex64(Val(w, e.members, Ref).s)
    && Val(w, e.members, System).Str?
    && Val(w, e.members, System).s != []
  }

  predicate Hex64(t: Text)
  {
    |t| == 64 && forall i | 0 <= i < |t| :: IsDigit(t[i]) || 0x61 <= t[i] <= 0x66
  }

  /** The receipt whose evidence is looked at. */
  function Target(w: World, b: Bundle): Option<Record>
  {
    if Reconciled(w, b).Some? then Reconciled(w, b) else if b.receipts != [] then Some(b.receipts[0]) else None
  }

  function EvidenceOf(w: World, r: Record): Option<Json>
  {
    Get(w, Members(Val(w, r, Outcome)), Evidence)
  }

  /** The receipt ids the observations link to. */
  function Links(w: World, obs: seq<Record>): seq<Text>
  {
    if obs == [] then [] else Links(w, obs[..|obs| - 1]) + LinkOf(w, obs[|obs| - 1])
  }

  function LinkOf(w: World, o: Record): seq<Text>
  {
    var ref, prefix := Val(w, Members(Val(w, o, Conduct)), DetailRef), w.Key(ExecPrefix);
    if ref.Str? && prefix <= ref.s then [ref.s[|prefix|..]] else []
  }

  predicate LinksElsewhere(w: World, obs: seq<Record>, r: Record)
  {
    exists l | l in Links(w, obs) :: Id(w, r, ReceiptPart) != Some(l)
  }

  predicate Refuses0(w: World, b: Bundle, c: Code)
  {
    match c
    case TaskIdMissing => !TaskNamed(b)
    case TaskIdMismatch => exists i | 0 <= i < |Records(b)| :: !OfTask(w, b, Records(b)[i])
    case _ => false
  }

  predicate Refuses1(w: World, b: Bundle, c: Code)
  {
    match c
    case ObservationInvalid =>
      b.raw != [] && (|b.obs| != |b.raw| || exists i | 0 <= i < |b.obs| :: !ObservationOk(w, b.sigs, b.obs[i]))
    case ChainBroken => b.raw != [] && !Chained(w, b.obs)
    case _ => false
  }

  predicate Finds1(w: World, b: Bundle, f: Finding)
  {
    match f
    case NoObservations => b.raw == []
    case WitnessDisagreement => exists i, j | 0 <= i < |b.obs| && 0 <= j < |b.obs| :: Disagree(w, b.obs[i], b.obs[j])
    case _ => false
  }

  predicate Refuses2(w: World, b: Bundle, c: Code)
  {
    match c
    case ExecutionInvalid =>
      || b.malformed
      || (Paired(b) && (|| PairReason(w, b.grant.record, b.receipts[0], AReceipt).Some?
                        || OtherFails(w, b.sigs, b.grant.record, b.receipts)))
    case IncompletePair => b.grant.Present? <==> b.receipts == []
    case ExecutionSignatureInvalid => Paired(b) && !Weighs(w, b.sigs, b.grant.record, b.receipts[0])
    case Unreconciled =>
      && Paired(b)
      && (|| Val(w, b.grant.record, ProviderId) == Null
          || AuthenticOnly(w, b.sigs, b.grant.record, b.receipts) == [])
    case Equivocation =>
      && Paired(b)
      && Val(w, b.grant.record, ProviderId) != Null
      && !OneId(w, AuthenticOnly(w, b.sigs, b.grant.record, b.receipts))
    case _ => false
  }

  /** The grant's authority, found when a record placed under it is compared. */
  predicate AuthorityFinding(w: World, grant: Record, r: Record, kind: Bound, f: Finding)
  {
    var gp := Val(w, grant, ProviderId);
    && Placed(w, grant, r, kind)
    && (|| (f == OpenGrant && gp == Null)
        || (f == SelfAuthorized && gp != Null && SameMaybe(Some(gp), Get(w, grant, CallerId))))
  }

  predicate Finds2(w: World, b: Bundle, f: Finding)
  {
    || (f == NoExecutionRecords && !b.grant.Present? && b.receipts == [])
    || (Paired(b) && AuthorityFinding(w, b.grant.record, b.receipts[0], AReceipt, f))
  }

  predicate Refuses3(w: World, b: Bundle, c: Code)
  {
    match c
    case PreflightInvalid =>
      || b.intent == Malformed
      || (b.intent.Present? && b.grant.Present? && PairReason(w, b.grant.record, b.intent.record, AnIntent).Some?)
    case PreflightWithoutGrant => b.intent.Present? && !b.grant.Present?
    case PreflightSignatureInvalid =>
      && b.intent.Present? && b.grant.Present? && b.sigs
      && !SignedBy(w, b.intent.record, IntentPart, ProviderId, IntentSig)
    case _ => false
  }

  /** The declared action is not what the receipt says was executed. */
  predicate Diverged(w: World, intent: Record, r: Record)
  {
    var a, e := TextOf(Val(w, intent, ProposedAction)), TextOf(Val(w, r, ExecutedAction));
    a.None? || e.None? || a != e
  }

  predicate Finds3(w: World, b: Bundle, f: Finding)
  {
    && b.intent.Present?
    && b.grant.Present?
    && (|| AuthorityFinding(w, b.grant.record, b.intent.record, AnIntent, f)
        || (&& f == DeclaredExecutedDivergence
            && Reconciled(w, b).Some?
            && Diverged(w, b.intent.record, Reconciled(w, b).value)))
  }

  predicate Refuses4(w: World, b: Bundle, c: Code)
  {
    && c == EvidenceInvalid
    && Target(w, b).Some?
    && !Falsy(EvidenceOf(w, Target(w, b).value))
    && !EvidenceForm(w, EvidenceOf(w, Target(w, b).value).value)
  }

  predicate Finds4(w: World, b: Bundle, f: Finding)
  {
    && Target(w, b).Some?
    && var e := EvidenceOf(w, Target(w, b).value);
       || (f == NoEvidenceBound && Falsy(e))
       || (f == EvidenceBoundUnchecked && !Falsy(e) && EvidenceForm(w, e.value))
  }

  predicate Refuses5(w: World, b: Bundle, c: Code)
  {
    && c == LinkageMismatch
    && b.raw != []
    && Reconciled(w, b).Some?
    && LinksElsewhere(w, b.obs, Reconciled(w, b).value)
  }

  predicate Finds5(w: World, b: Bundle, f: Finding)
  {
    f == NoDigestLink && b.raw != [] && Reconciled(w, b).Some? && Links(w, b.obs) == []
  }

  /** The conditions under which the procedure reports each code. */
  predicate Refuses(w: World, b: Bundle, c: Code)
  {
    || Refuses0(w, b, c)
    || Refuses1(w, b, c)
    || Refuses2(w, b, c)
    || Refuses3(w, b, c)
    || Refuses4(w, b, c)
    || Refuses5(w, b, c)
  }

  predicate Finds(w: World, b: Bundle, f: Finding)
  {
    Finds1(w, b, f) || Finds2(w, b, f) || Finds3(w, b, f) || Finds4(w, b, f) || Finds5(w, b, f)
  }

  // ----- The procedure

  class Report {
    var refusals: seq<Code>
    var findings: seq<Finding>

    constructor ()
      ensures refusals == [] && findings == []
    {
      refusals, findings := [], [];
    }

    method Refuse(c: Code)
      modifies this
      ensures refusals == old(refusals) + [c] && findings == old(findings)
    {
      refusals := refusals + [c];
    }

    method Find(f: Finding)
      modifies this
      ensures findings == old(findings) + [f] && refusals == old(refusals)
    {
      findings := findings + [f];
    }

    predicate Accepted()
      reads this
    {
      refusals == []
    }
  }

  method Step0(w: World, b: Bundle, r: Report)
    modifies r
    ensures forall c :: c in r.refusals <==> c in old(r.refusals) || Refuses0(w, b, c)
    ensures r.findings == old(r.findings)
  {
    var records := Records(b);
    if !TaskNamed(b) {
      r.Refuse(TaskIdMissing);
      if records != [] {
        assert !OfTask(w, b, records[0]);
        r.Refuse(TaskIdMismatch);
      }
    } else if exists i | 0 <= i < |records| :: Get(w, records[i], TaskId) != Some(b.task) {
      r.Refuse(TaskIdMismatch);
    }
  }

  predicate BadSoFar(w: World, b: Bundle, n: nat)
    requires n <= |b.obs|
  {
    |b.obs| != |b.raw| || exists k | 0 <= k < n :: !ObservationOk(w, b.sigs, b.obs[k])
  }

  method CheckObservations(w: World, b: Bundle, r: Report)
    requires b.raw != []
    modifies r
    ensures forall c :: c in r.refusals <==> c in old(r.refusals) || (c == ObservationInvalid && Refuses1(w, b, c))
    ensures r.findings == old(r.findings)
  {
    if |b.obs| != |b.raw| {
      r.Refuse(ObservationInvalid);
    }
    for i := 0 to |b.obs|
      invariant r.findings == old(r.findings)
      invariant forall c :: c in r.refusals <==> c in old(r.refusals) || (c == ObservationInvalid && BadSoFar(w, b, i))
    {
      var o := b.obs[i];
      var hop := Members(Val(w, o, Hop));
      var who := Get(w, o, WitnessId);
      if SameMaybe(who, Get(w, hop, From)) || SameMaybe(who, Get(w, hop, To)) {
        r.Refuse(ObservationInvalid);
        continue;
      }
      if !Recomputes(w, o, Obs, EvidenceId) {
        r.Refuse(ObservationInvalid);
        continue;
      }
      if b.sigs {
        if !SignedBy(w, o, Obs, WitnessId, WitnessSig) {
          r.Refuse(ObservationInvalid);
          continue;
        }
        if !EdgeSigned(w, o) {
          r.Refuse(ObservationInvalid);
          continue;
        }
      }
    }
  }

  // The sequence numbers

  function Range(n: nat): (r: set<int>)
    ensures forall x: int :: x in r <==> 0 <= x < n
  {
    if n == 0 then {} else Range(n - 1) + {n - 1}
  }

  predicate Downward(s: set<int>)
  {
    forall x | x in s :: Grounded(s, x)
  }

  /** x is zero, or its predecessor is there. */
  predicate Grounded(s: set<int>, x: int)
  {
    x == 0 || (x > 0 && x - 1 in s)
  }

  lemma Pick<T>(s: set<T>) returns (x: T)
    requires |s| > 0
    ensures x in s
  {
    x :| x in s;
  }

  lemma {:induction false} Maximum(s: set<int>) returns (m: int)
    requires |s| > 0
    ensures m in s && forall x | x in s :: x <= m
  {
    var first := Pick(s);
    m := first;
    if s != {first} {
      var n := Maximum(s - {first});
      if n > m { m := n; }
      assert forall x | x in s :: x == first || x in s - {first};
    }
  }

  /** A finite set of numbers is an initial segment exactly when it is closed downward. */
  lemma InitialSegment(s: set<int>)
    ensures s == Range(|s|) <==> Downward(s)
  {
    if s == Range(|s|) {
      forall x | x in s ensures Grounded(s, x) {
        assert x in Range(|s|);
        if x > 0 { assert x - 1 in Range(|s|); }
      }
    }
    if Downward(s) { DownwardIsRange(s); }
  }

  lemma {:induction false} DownwardIsRange(s: set<int>)
    requires Downward(s)
    ensures s == Range(|s|)
    decreases |s|
  {
    if s != {} {
      var m := Maximum(s);
      var less := s - {m};
      assert s == less + {m} && |s| == |less| + 1;
      assert Grounded(s, m);
      forall x | x in less ensures Grounded(less, x) {
        assert Grounded(s, x);
      }
      DownwardIsRange(less);
      assert m !in Range(|less|);
      assert m == 0 || m - 1 in Range(|less|);
      assert Range(|s|) == Range(|less|) + {m};
    }
  }

  /** The sequence numbers in use. */
  function Used(w: World, obs: seq<Record>): set<int>
    requires AllNumbered(w, obs)
  {
    set i | 0 <= i < |obs| :: SeqOf(w, obs[i]).value
  }

  lemma UsedIsUsed(w: World, obs: seq<Record>, x: int)
    requires AllNumbered(w, obs)
    ensures x in Used(w, obs) <==> SeqUsed(w, obs, x)
  {
    if SeqUsed(w, obs, x) {
      var i :| 0 <= i < |obs| && SeqOf(w, obs[i]) == Some(x);
      assert SeqOf(w, obs[i]).value in Used(w, obs);
    }
  }

  lemma GapIsSet(w: World, obs: seq<Record>)
    requires AllNumbered(w, obs)
    ensures Used(w, obs) == Range(|Used(w, obs)|) <==> NoGap(w, obs)
  {
    var used := Used(w, obs);
    InitialSegment(used);
    if Downward(used) {
      forall i | 0 <= i < |obs| ensures StepDown(w, obs, obs[i]) {
        var x := SeqOf(w, obs[i]).value;
        assert SeqUsed(w, obs, x);
        UsedIsUsed(w, obs, x);
        assert Grounded(used, x);
        UsedIsUsed(w, obs, x - 1);
      }
    }
    if NoGap(w, obs) {
      forall x | x in used ensures Grounded(used, x) {
        UsedIsUsed(w, obs, x);
        var i :| 0 <= i < |obs| && SeqOf(w, obs[i]) == Some(x);
        assert StepDown(w, obs, obs[i]);
        UsedIsUsed(w, obs, x - 1);
      }
    }
  }

  /** The ids of the first n observations, by sequence number. */
  ghost predicate IdsOf(w: World, obs: seq<Record>, n: nat, ids: map<int, set<Text>>)
    requires n <= |obs|
  {
    forall s: int, h: Text :: Held(ids, s, h) <==> HasId(w, obs, n, s, h)
  }

  predicate Held<K, V(==)>(table: map<K, set<V>>, k: K, v: V)
  {
    k in table && v in table[k]
  }

  ghost predicate HasId(w: World, obs: seq<Record>, n: nat, s: int, h: Text)
    requires n <= |obs|
  {
    exists k | 0 <= k < n :: HasIdAt(w, obs[k], s, h)
  }

  predicate HasIdAt(w: World, o: Record, s: int, h: Text)
  {
    SeqOf(w, o) == Some(s) && Id(w, o, Obs) == Some(h)
  }

  lemma HasIdOne(w: World, obs: seq<Record>, n: nat, s: int, h: Text)
    requires n < |obs|
    ensures HasId(w, obs, n + 1, s, h) <==> HasId(w, obs, n, s, h) || HasIdAt(w, obs[n], s, h)
  {
  }

  function Include(ids: map<int, set<Text>>, s: int, id: Option<Text>): map<int, set<Text>>
  {
    var was := if s in ids then ids[s] else {};
    ids[s := if id.Some? then was + {id.value} else was]
  }

  lemma IdsOne(w: World, obs: seq<Record>, n: nat, ids: map<int, set<Text>>)
    requires n < |obs| && IdsOf(w, obs, n, ids) && SeqOf(w, obs[n]).Some?
    ensures IdsOf(w, obs, n + 1, Include(ids, SeqOf(w, obs[n]).value, Id(w, obs[n], Obs)))
  {
    var s0, id := SeqOf(w, obs[n]).value, Id(w, obs[n], Obs);
    var more := Include(ids, s0, id);
    forall s: int, h: Text ensures Held(more, s, h) <==> HasId(w, obs, n + 1, s, h) {
      HasIdOne(w, obs, n, s, h);
      assert Held(ids, s, h) <==> HasId(w, obs, n, s, h);
    }
  }

  predicate FoundIn(ids: map<int, set<Text>>, s: int, prev: Option<Json>)
  {
    prev.Some? && prev.value.Str? && Held(ids, s, prev.value.s)
  }

  lemma LinkedIsFound(w: World, obs: seq<Record>, ids: map<int, set<Text>>, o: Record)
    requires IdsOf(w, obs, |obs|, ids) && SeqOf(w, o).Some? && SeqOf(w, o) != Some(0)
    ensures Linked(w, obs, o) <==> FoundIn(ids, SeqOf(w, o).value - 1, Get(w, o, PrevEvidenceId))
  {
    var s, prev := SeqOf(w, o).value - 1, Get(w, o, PrevEvidenceId);
    if Linked(w, obs, o) {
      var i :| 0 <= i < |obs| && Precedes(w, obs[i], o);
      assert HasIdAt(w, obs[i], s, Id(w, obs[i], Obs).value);
      assert HasId(w, obs, |obs|, s, Id(w, obs[i], Obs).value);
    }
    if FoundIn(ids, s, prev) {
      assert HasId(w, obs, |obs|, s, prev.value.s);
      var i :| 0 <= i < |obs| && HasIdAt(w, obs[i], s, prev.value.s);
      assert Precedes(w, obs[i], o);
    }
  }

  method CollectIds(w: World, obs: seq<Record>) returns (ids: map<int, set<Text>>)
    requires AllNumbered(w, obs)
    ensures IdsOf(w, obs, |obs|, ids)
  {
    ids := map[];
    for i := 0 to |obs|
      invariant IdsOf(w, obs, i, ids)
    {
      IdsOne(w, obs, i, ids);
      ids := Include(ids, SeqOf(w, obs[i]).value, Id(w, obs[i], Obs));
    }
  }

  predicate LinkFound(w: World, ids: map<int, set<Text>>, o: Record)
  {
    var prev := Get(w, o, PrevEvidenceId);
    match SeqOf(w, o)
    case None => false
    case Some(s) => if s == 0 then prev == Some(Null) else FoundIn(ids, s - 1, prev)
  }

  lemma LinkFoundIsLinked(w: World, obs: seq<Record>, ids: map<int, set<Text>>, o: Record)
    requires IdsOf(w, obs, |obs|, ids) && SeqOf(w, o).Some?
    ensures LinkFound(w, ids, o) <==> Linked(w, obs, o)
  {
    if SeqOf(w, o) != Some(0) { LinkedIsFound(w, obs, ids, o); }
  }

  method CheckLinks(w: World, obs: seq<Record>, ids: map<int, set<Text>>) returns (broken: bool)
    ensures broken <==> exists i | 0 <= i < |obs| :: !LinkFound(w, ids, obs[i])
  {
    for i := 0 to |obs|
      invariant forall k | 0 <= k < i :: LinkFound(w, ids, obs[k])
    {
      if !LinkFound(w, ids, obs[i]) {
        return true;
      }
    }
    return false;
  }

  method CheckChain(w: World, obs: seq<Record>) returns (broken: bool)
    ensures broken <==> !Chained(w, obs)
  {
    if !AllNumbered(w, obs) {
      NumberedWhenNoGap(w, obs);
      return true;
    }
    GapIsSet(w, obs);
    var used := Used(w, obs);
    if used != Range(|used|) {
      return true;
    }
    var ids := CollectIds(w, obs);
    broken := CheckLinks(w, obs, ids);
    forall i | 0 <= i < |obs| ensures LinkFound(w, ids, obs[i]) <==> Linked(w, obs, obs[i]) {
      LinkFoundIsLinked(w, obs, ids, obs[i]);
    }
  }

  lemma NumberedWhenNoGap(w: World, obs: seq<Record>)
    ensures NoGap(w, obs) ==> AllNumbered(w, obs)
  {
    if NoGap(w, obs) {
      forall i | 0 <= i < |obs| ensures SeqOf(w, obs[i]).Some? { assert StepDown(w, obs, obs[i]); }
    }
  }

  // Witnesses at one hop

  type Verdicts = map<Option<Option<Json>>, set<Option<Json>>>

  ghost predicate VerdictsOf(w: World, obs: seq<Record>, n: nat, said: Verdicts)
    requires n <= |obs|
  {
    forall k: Option<Option<Json>>, v: Option<Json> :: Held(said, k, v) <==> HasVerdict(w, obs, n, k, v)
  }

  ghost predicate HasVerdict(w: World, obs: seq<Record>, n: nat, k: Option<Option<Json>>, v: Option<Json>)
    requires n <= |obs|
  {
    exists i | 0 <= i < n :: HasVerdictAt(w, obs[i], k, v)
  }

  predicate HasVerdictAt(w: World, o: Record, k: Option<Option<Json>>, v: Option<Json>)
  {
    Spot(w, o) == k && Reported(w, o) == v
  }

  lemma HasVerdictOne(w: World, obs: seq<Record>, n: nat, k: Option<Option<Json>>, v: Option<Json>)
    requires n < |obs|
    ensures HasVerdict(w, obs, n + 1, k, v) <==> HasVerdict(w, obs, n, k, v) || HasVerdictAt(w, obs[n], k, v)
  {
  }

  lemma VerdictsOne(w: World, obs: seq<Record>, n: nat, said: Verdicts, more: Verdicts)
    requires n < |obs| && VerdictsOf(w, obs, n, said)
    requires var k := Spot(w, obs[n]); more == said[k := (if k in said then said[k] else {}) + {Reported(w, obs[n])}]
    ensures VerdictsOf(w, obs, n + 1, more)
  {
    forall k: Option<Option<Json>>, v: Option<Json> ensures Held(more, k, v) <==> HasVerdict(w, obs, n + 1, k, v) {
      HasVerdictOne(w, obs, n, k, v);
      assert Held(said, k, v) <==> HasVerdict(w, obs, n, k, v);
    }
  }

  lemma TwoElements<T>(s: set<T>)
    ensures |s| > 1 <==> exists x, y :: x in s && y in s && x != y
  {
    if |s| > 1 {
      var x :| x in s;
      assert |s - {x}| > 0;
      var y :| y in s - {x};
      assert x in s && y in s && x != y;
    }
    if x, y :| x in s && y in s && x != y {
      assert {x, y} <= s;
      SubsetSize({x, y}, s);
    }
  }

  method CheckWitnesses(w: World, obs: seq<Record>) returns (disagree: bool)
    ensures disagree <==> exists i, j | 0 <= i < |obs| && 0 <= j < |obs| :: Disagree(w, obs[i], obs[j])
  {
    var said: Verdicts := map[];
    for i := 0 to |obs|
      invariant VerdictsOf(w, obs, i, said)
    {
      var k := Spot(w, obs[i]);
      var more := said[k := (if k in said then said[k] else {}) + {Reported(w, obs[i])}];
      VerdictsOne(w, obs, i, said, more);
      said := more;
    }
    disagree := exists k | k in said :: |said[k]| > 1;
    DisagreeIsTwo(w, obs, said);
  }

  lemma DisagreeIsTwo(w: World, obs: seq<Record>, said: Verdicts)
    requires VerdictsOf(w, obs, |obs|, said)
    ensures (exists k | k in said :: |said[k]| > 1) <==>
      exists i, j | 0 <= i < |obs| && 0 <= j < |obs| :: Disagree(w, obs[i], obs[j])
  {
    if k :| k in said && |said[k]| > 1 {
      TwoElements(said[k]);
      var u, v :| u in said[k] && v in said[k] && u != v;
      assert Held(said, k, u) && Held(said, k, v);
      assert HasVerdict(w, obs, |obs|, k, u) && HasVerdict(w, obs, |obs|, k, v);
      var i :| 0 <= i < |obs| && HasVerdictAt(w, obs[i], k, u);
      var j :| 0 <= j < |obs| && HasVerdictAt(w, obs[j], k, v);
      assert Disagree(w, obs[i], obs[j]);
    }
    if i, j :| 0 <= i < |obs| && 0 <= j < |obs| && Disagree(w, obs[i], obs[j]) {
      var k, u, v := Spot(w, obs[i]), Reported(w, obs[i]), Reported(w, obs[j]);
      assert HasVerdictAt(w, obs[i], k, u) && HasVerdictAt(w, obs[j], k, v);
      assert HasVerdict(w, obs, |obs|, k, u) && HasVerdict(w, obs, |obs|, k, v);
      assert Held(said, k, u) && Held(said, k, v);
      TwoElements(said[k]);
    }
  }

  method Step1(w: World, b: Bundle, r: Report)
    requires b.obs == Objects(b.raw)
    modifies r
    ensures forall c :: c in r.refusals <==> c in old(r.refusals) || Refuses1(w, b, c)
    ensures forall f :: f in r.findings <==> f in old(r.findings) || Finds1(w, b, f)
  {
    if b.raw == [] {
      r.Find(NoObservations);
    } else {
      CheckObservations(w, b, r);
      var broken := CheckChain(w, b.obs);
      if broken {
        r.Refuse(ChainBroken);
      }
      var disagree := CheckWitnesses(w, b.obs);
      if disagree {
        r.Find(WitnessDisagreement);
      }
    }
  }

  // The execution pair

  method PairCheck(w: World, grant: Record, x: Record, kind: Bound, r: Report, addFindings: bool)
    returns (why: Option<Reason>)
    modifies r
    ensures why == PairReason(w, grant, x, kind)
    ensures r.refusals == old(r.refusals)
    ensures forall f :: f in r.findings <==>
      f in old(r.findings) || (addFindings && AuthorityFinding(w, grant, x, kind, f))
  {
    why := IdentityReason(w, grant, x, kind);
    if why.Some? {
      return;
    }
    why := PlaceReason(w, grant, x, kind);
    if why.Some? {
      return;
    }
    var gp := Val(w, grant, ProviderId);
    if addFindings {
      if gp == Null {
        r.Find(OpenGrant);
      } else if SameMaybe(Some(gp), Get(w, grant, CallerId)) {
        r.Find(SelfAuthorized);
      }
    }
    why := if ActionsEqual(Get(w, grant, Action), Get(w, x, kind.action)) then None else Some(ActionDiverged);
  }

  method CheckOthers(w: World, sigs: bool, grant: Record, rs: seq<Record>, r: Report)
    requires rs != []
    modifies r
    ensures forall c :: c in r.refusals <==>
      c in old(r.refusals) || (c == ExecutionInvalid && OtherFails(w, sigs, grant, rs))
    ensures forall f :: f in r.findings <==> f in old(r.findings)
  {
    for i := 1 to |rs|
      invariant forall f :: f in r.findings <==> f in old(r.findings)
      invariant forall c :: c in r.refusals <==>
        c in old(r.refusals) || (c == ExecutionInvalid && OtherBefore(w, sigs, grant, rs, i))
    {
      CheckOther(w, sigs, grant, rs[i], r);
    }
  }

  method CheckOther(w: World, sigs: bool, grant: Record, x: Record, r: Report)
    modifies r
    ensures forall c :: c in r.refusals <==>
      c in old(r.refusals) || (c == ExecutionInvalid && CountsAndFails(w, sigs, grant, x))
    ensures forall f :: f in r.findings <==> f in old(r.findings)
  {
    if !Weighs(w, sigs, grant, x) {
      return;
    }
    var why := PairCheck(w, grant, x, AReceipt, r, false);
    if why.Some? {
      r.Refuse(ExecutionInvalid);
    }
  }

  /** One entry per receipt id, with the first receipt of that id. */
  ghost predicate Gathered(w: World, own: seq<Record>, auth: seq<Record>, ids: seq<Json>)
  {
    && |auth| == |ids|
    && (forall i | 0 <= i < |ids| :: auth[i] in own && Get(w, auth[i], ReceiptId) == Some(ids[i]))
    && (forall i, j | 0 <= i < j < |ids| :: ids[i] != ids[j])
    && (forall x | x in own :: Get(w, x, ReceiptId).Some? && Get(w, x, ReceiptId).value in ids)
    && (if own == [] then auth == [] else auth != [] && auth[0] == own[0])
  }

  lemma GatherOne(w: World, own: seq<Record>, auth: seq<Record>, ids: seq<Json>, x: Record)
    requires Gathered(w, own, auth, ids) && Get(w, x, ReceiptId).Some?
    ensures Get(w, x, ReceiptId).value in ids ==> Gathered(w, own + [x], auth, ids)
    ensures Get(w, x, ReceiptId).value !in ids ==>
      Gathered(w, own + [x], auth + [x], ids + [Get(w, x, ReceiptId).value])
  {
    var id, all := Get(w, x, ReceiptId).value, own + [x];
    assert x in all && forall y | y in own :: y in all;
    assert forall y | y in all :: y in own || y == x;
  }

  lemma GatheredDecides(w: World, own: seq<Record>, auth: seq<Record>, ids: seq<Json>)
    requires Gathered(w, own, auth, ids)
    ensures ids == [] <==> own == []
    ensures |ids| > 1 <==> !OneId(w, own)
  {
    if ids != [] { assert auth[0] in own; }
    if own != [] { assert own[0] in own; }
    if |ids| > 1 {
      assert auth[0] in own && auth[1] in own;
      assert ids[0] != ids[1];
    }
    if |ids| == 1 {
      forall i | 0 <= i < |own| ensures Get(w, own[i], ReceiptId) == Some(ids[0]) { assert own[i] in own; }
    }
  }

  lemma AuthenticHasId(w: World, sigs: bool, grant: Record, x: Record)
    requires Authentic(w, sigs, grant, x)
    ensures Get(w, x, ReceiptId).Some?
  {
  }

  method Reconcile(w: World, sigs: bool, grant: Record, rs: seq<Record>) returns (auth: seq<Record>, ids: seq<Json>)
    ensures Gathered(w, AuthenticOnly(w, sigs, grant, rs), auth, ids)
  {
    auth, ids := [], [];
    for i := 0 to |rs|
      invariant Gathered(w, AuthenticOnly(w, sigs, grant, rs[..i]), auth, ids)
    {
      assert rs[..i + 1][..i] == rs[..i];
      if Authentic(w, sigs, grant, rs[i]) {
        AuthenticHasId(w, sigs, grant, rs[i]);
        GatherOne(w, AuthenticOnly(w, sigs, grant, rs[..i]), auth, ids, rs[i]);
        var id := Get(w, rs[i], ReceiptId).value;
        if id !in ids {
          ids, auth := ids + [id], auth + [rs[i]];
        }
      }
    }
    assert rs[..|rs|] == rs;
  }

  predicate PairRefuses(w: World, b: Bundle, c: Code)
    requires Paired(b)
  {
    || (c == ExecutionInvalid && PairReason(w, b.grant.record, b.receipts[0], AReceipt).Some?)
    || (c == ExecutionInvalid && OtherFails(w, b.sigs, b.grant.record, b.receipts))
    || (c == ExecutionSignatureInvalid && !Weighs(w, b.sigs, b.grant.record, b.receipts[0]))
  }

  method CheckPair(w: World, b: Bundle, r: Report)
    requires Paired(b)
    modifies r
    ensures forall c :: c in r.refusals <==> c in old(r.refusals) || PairRefuses(w, b, c)
    ensures forall f :: f in r.findings <==>
      f in old(r.findings) || AuthorityFinding(w, b.grant.record, b.receipts[0], AReceipt, f)
  {
    var grant, primary := b.grant.record, b.receipts[0];
    var why := PairCheck(w, grant, primary, AReceipt, r, true);
    if why.Some? {
      r.Refuse(ExecutionInvalid);
    }
    if b.sigs {
      if !SignedBy(w, grant, GrantPart, CallerId, CallerSig) {
        r.Refuse(ExecutionSignatureInvalid);
      } else if !SignedBy(w, primary, ReceiptPart, ProviderId, ProviderSig) {
        r.Refuse(ExecutionSignatureInvalid);
      }
    }
    CheckOthers(w, b.sigs, grant, b.receipts, r);
  }

  method Step2(w: World, b: Bundle, r: Report) returns (reconciled: Option<Record>)
    modifies r
    ensures forall c :: c in r.refusals <==> c in old(r.refusals) || Refuses2(w, b, c)
    ensures forall f :: f in r.findings <==> f in old(r.findings) || Finds2(w, b, f)
    ensures reconciled == Reconciled(w, b)
  {
    reconciled := None;
    if b.malformed {
      r.Refuse(ExecutionInvalid);
    }
    if !b.grant.Present? && b.receipts == [] {
      r.Find(NoExecutionRecords);
    } else if !b.grant.Present? || b.receipts == [] {
      r.Refuse(IncompletePair);
    } else {
      CheckPair(w, b, r);
      if Val(w, b.grant.record, ProviderId) == Null {
        r.Refuse(Unreconciled);
      } else {
        var auth, ids := Reconcile(w, b.sigs, b.grant.record, b.receipts);
        GatheredDecides(w, AuthenticOnly(w, b.sigs, b.grant.record, b.receipts), auth, ids);
        if ids == [] {
          r.Refuse(Unreconciled);
        } else if |ids| > 1 {
          r.Refuse(Equivocation);
        } else {
          reconciled := Some(auth[0]);
        }
      }
    }
  }

  predicate IntentRefuses(w: World, b: Bundle, c: Code)
    requires b.intent.Present? && b.grant.Present?
  {
    || (c == PreflightInvalid && PairReason(w, b.grant.record, b.intent.record, AnIntent).Some?)
    || (c == PreflightSignatureInvalid && b.sigs && !SignedBy(w, b.intent.record, IntentPart, ProviderId, IntentSig))
  }

  method CheckIntent(w: World, b: Bundle, reconciled: Option<Record>, r: Report)
    requires b.intent.Present? && b.grant.Present? && reconciled == Reconciled(w, b)
    modifies r
    ensures forall c :: c in r.refusals <==> c in old(r.refusals) || IntentRefuses(w, b, c)
    ensures forall f :: f in r.findings <==> f in old(r.findings) || Finds3(w, b, f)
  {
    var why := PairCheck(w, b.grant.record, b.intent.record, AnIntent, r, true);
    if why.Some? {
      r.Refuse(PreflightInvalid);
    }
    if b.sigs && !SignedBy(w, b.intent.record, IntentPart, ProviderId, IntentSig) {
      r.Refuse(PreflightSignatureInvalid);
    }
    if reconciled.Some? && Diverged(w, b.intent.record, reconciled.value) {
      r.Find(DeclaredExecutedDivergence);
    }
  }

  method Step3(w: World, b: Bundle, reconciled: Option<Record>, r: Report)
    requires reconciled == Reconciled(w, b)
    modifies r
    ensures forall c :: c in r.refusals <==> c in old(r.refusals) || Refuses3(w, b, c)
    ensures forall f :: f in r.findings <==> f in old(r.findings) || Finds3(w, b, f)
  {
    if b.intent == Malformed {
      r.Refuse(PreflightInvalid);
    }
    if b.intent.Present? {
      if !b.grant.Present? {
        r.Refuse(PreflightWithoutGrant);
      } else {
        CheckIntent(w, b, reconciled, r);
      }
    }
  }

  method Step4(w: World, b: Bundle, reconciled: Option<Record>, r: Report)
    requires reconciled == Reconciled(w, b)
    modifies r
    ensures forall c :: c in r.refusals <==> c in old(r.refusals) || Refuses4(w, b, c)
    ensures forall f :: f in r.findings <==> f in old(r.findings) || Finds4(w, b, f)
  {
    var target := if reconciled.Some? then reconciled else if b.receipts != [] then Some(b.receipts[0]) else None;
    if target.Some? {
      var e := EvidenceOf(w, target.value);
      if Falsy(e) {
        r.Find(NoEvidenceBound);
      } else if EvidenceForm(w, e.value) {
        r.Find(EvidenceBoundUnchecked);
      } else {
        r.Refuse(EvidenceInvalid);
      }
    }
  }

  method CollectLinks(w: World, obs: seq<Record>) returns (links: seq<Text>)
    ensures links == Links(w, obs)
  {
    links := [];
    for i := 0 to |obs|
      invariant links == Links(w, obs[..i])
    {
      assert obs[..i + 1][..i] == obs[..i];
      links := links + LinkOf(w, obs[i]);
    }
    assert obs[..|obs|] == obs;
  }

  method Step5(w: World, b: Bundle, reconciled: Option<Record>, r: Report)
    requires reconciled == Reconciled(w, b)
    modifies r
    ensures forall c :: c in r.refusals <==> c in old(r.refusals) || Refuses5(w, b, c)
    ensures forall f :: f in r.findings <==> f in old(r.findings) || Finds5(w, b, f)
  {
    if b.raw != [] && reconciled.Some? {
      var want := Id(w, reconciled.value, ReceiptPart);
      var links := CollectLinks(w, b.obs);
      if links == [] {
        r.Find(NoDigestLink);
      } else if exists l | l in links :: want != Some(l) {
        r.Refuse(LinkageMismatch);
      }
    }
  }

  // Reading the bundle

  method Deduplicate(candidates: seq<Record>) returns (kept: seq<Record>)
    ensures kept == Distinct(candidates)
  {
    kept := [];
    var seen: seq<Text> := [];
    for i := 0 to |candidates|
      invariant kept == Distinct(candidates[..i])
      invariant SeenIn(kept, seen)
    {
      var x := candidates[i];
      var text := TextOf(Obj(x));
      assert candidates[..i + 1][..i] == candidates[..i];
      SeenDecides(kept, seen, x);
      if text.Some? && text.value in seen {
        continue;
      }
      SeenOne(kept, seen, x);
      if text.Some? {
        seen := seen + [text.value];
      }
      kept := kept + [x];
    }
    assert candidates[..|candidates|] == candidates;
  }

  /** The texts of the records kept. */
  ghost predicate SeenIn(kept: seq<Record>, seen: seq<Text>)
  {
    forall t: Text :: t in seen <==> exists i | 0 <= i < |kept| :: TextOf(Obj(kept[i])) == Some(t)
  }

  lemma SeenDecides(kept: seq<Record>, seen: seq<Text>, x: Record)
    requires SeenIn(kept, seen)
    ensures Repeated(kept, x) <==> TextOf(Obj(x)).Some? && TextOf(Obj(x)).value in seen
  {
  }

  lemma SeenOne(kept: seq<Record>, seen: seq<Text>, x: Record)
    requires SeenIn(kept, seen)
    ensures var text := TextOf(Obj(x)); SeenIn(kept + [x], if text.Some? then seen + [text.value] else seen)
  {
    var text, all := TextOf(Obj(x)), kept + [x];
    var now := if text.Some? then seen + [text.value] else seen;
    forall t: Text ensures t in now <==> exists i | 0 <= i < |all| :: TextOf(Obj(all[i])) == Some(t) {
      if t in seen {
        var i :| 0 <= i < |kept| && TextOf(Obj(kept[i])) == Some(t);
        assert all[i] == kept[i];
      }
      if t in now && t !in seen {
        assert all[|kept|] == x;
      }
      if i :| 0 <= i < |all| && TextOf(Obj(all[i])) == Some(t) && i < |kept| {
        assert all[i] == kept[i];
      }
    }
  }

  method CollectObjects(vs: seq<Json>) returns (rs: seq<Record>, malformed: bool)
    ensures rs == Objects(vs) && malformed == SomeMalformed(vs)
  {
    rs, malformed := [], false;
    for i := 0 to |vs|
      invariant rs + Objects(vs[i..]) == Objects(vs)
      invariant malformed <==> exists k | 0 <= k < i :: !vs[k].Obj?
    {
      assert vs[i..][1..] == vs[i + 1..];
      if vs[i].Obj? {
        rs := rs + [vs[i].members];
      } else {
        malformed := true;
      }
    }
  }

  method ReadBundle(w: World, v: Json) returns (b: Bundle)
    ensures b == Read(w, v)
  {
    var m := Members(v);
    var raw, more := ListOf(Val(w, m, Observations)), ListOf(Val(w, m, Receipts));
    var grant, intent := SlotOf(Val(w, m, Grant)), SlotOf(Val(w, m, Intent));
    var first := SlotOf(Val(w, m, Receipt));
    var obs, _ := CollectObjects(raw);
    var others, malformed := CollectObjects(more);
    var receipts := Deduplicate((if first.Present? then [first.record] else []) + others);
    b := Bundle(Val(w, m, RequireSignatures) != False, Val(w, m, TaskId), raw, obs, grant, intent, receipts,
                grant == Malformed || first == Malformed || malformed);
  }

  /** The procedure reports exactly the codes whose conditions hold, and exactly the findings whose conditions hold. */
  method Verify(w: World, v: Json) returns (r: Report)
    ensures fresh(r)
    ensures forall c :: c in r.refusals <==> Refuses(w, Read(w, v), c)
    ensures forall f :: f in r.findings <==> Finds(w, Read(w, v), f)
    ensures r.Accepted() <==> forall c :: !Refuses(w, Read(w, v), c)
  {
    r := new Report();
    var b := ReadBundle(w, v);
    Step0(w, b, r);
    Step1(w, b, r);
    var reconciled := Step2(w, b, r);
    Step3(w, b, reconciled, r);
    Step4(w, b, reconciled, r);
    Step5(w, b, reconciled, r);
    if r.refusals != [] {
      assert r.refusals[0] in r.refusals;
    }
  }
}
