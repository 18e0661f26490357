/** What acceptance by the NENRIN bundle procedure establishes. */
module NenrinAcceptance {
  import opened Basics
  import opened Ordering
  import opened CanonicalJson
  import opened Nenrin

  /** The time is readable and within the bounds the grant sets, which are readable too. */
  ghost predicate WithinBounds(w: World, grant: Record, time: Json)
  {
    && w.Instant(time).Some?
    && (Val(w, grant, NotBefore) == Null || NotLater(w, Val(w, grant, NotBefore), time))
    && (Val(w, grant, NotAfter) == Null || NotLater(w, time, Val(w, grant, NotAfter)))
  }

  ghost predicate NotLater(w: World, a: Json, b: Json)
  {
    w.Instant(a).Some? && w.Instant(b).Some? && w.Instant(a).value <= w.Instant(b).value
  }

  /** No binding is carried, or it is of the known form and holds the digest of the record's action. */
  ghost predicate BindingHolds(w: World, r: Record, action: Name)
  {
    Get(w, r, ActionBinding).Some? ==>
      var ab := Get(w, r, ActionBinding).value;
      var digest := Val(w, Members(ab), DigestName);
      && ab.Obj? && digest.Obj?
      && Val(w, ab.members, TypeName) == w.Word(CanonicalRequestDigest)
      && Val(w, ab.members, Canonicalization) == w.Word(MusubiCanonical)
      && Val(w, ab.members, PreimageProfile) == w.Word(ActionProfile)
      && Val(w, digest.members, Alg) == w.Word(Sha256)
      && Val(w, r, action) != Null
      && DigestOf(w, Val(w, r, action)).Some?
      && Val(w, digest.members, ValueName) == Str(DigestOf(w, Val(w, r, action)).value)
  }

  lemma BindingReasonExactly(w: World, r: Record, action: Name)
    ensures BindingReason(w, r, action).None? <==> BindingHolds(w, r, action)
  {
  }

  /** Both actions are there, count as actions, have a canonical text, and are the same value. */
  ghost predicate SameAction(a: Option<Json>, b: Option<Json>)
  {
    && a.Some? && b.Some? && !Falsy(a) && Printable(Dialect.Nenrin, a.value) && Printable(Dialect.Nenrin, b.value)
    && SameValue(a.value, b.value)
  }

  /**
   What a receipt or an intent that passes is: it and the grant carry their own ids, it names the grant, is the work
   of the provider the grant names (anyone, for an open grant), lies in the grant's window, and its action is the
   granted one.
   */
  ghost predicate Fulfils(w: World, grant: Record, x: Record, kind: Bound)
  {
    && Recomputes(w, grant, GrantPart, GrantRef)
    && Recomputes(w, x, kind.part, kind.id)
    && (kind.part == ReceiptPart ==> BindingHolds(w, grant, Action))
    && BindingHolds(w, x, kind.action)
    && Get(w, x, GrantRef) == Get(w, grant, GrantRef)
    && (Val(w, grant, ProviderId) == Null || SameMaybe(Some(Val(w, grant, ProviderId)), Get(w, x, ProviderId)))
    && WithinBounds(w, grant, Val(w, x, kind.time))
    && SameAction(Get(w, grant, Action), Get(w, x, kind.action))
  }

  lemma IdentityExactly(w: World, grant: Record, x: Record, kind: Bound)
    ensures IdentityReason(w, grant, x, kind).None? <==>
      && Recomputes(w, grant, GrantPart, GrantRef)
      && Recomputes(w, x, kind.part, kind.id)
      && (kind.part == ReceiptPart ==> BindingHolds(w, grant, Action))
      && BindingHolds(w, x, kind.action)
  {
    BindingReasonExactly(w, grant, Action);
    BindingReasonExactly(w, x, kind.action);
  }

  lemma PlaceExactly(w: World, grant: Record, x: Record, kind: Bound)
    ensures PlaceReason(w, grant, x, kind).None? <==>
      && Get(w, x, GrantRef) == Get(w, grant, GrantRef)
      && (Val(w, grant, ProviderId) == Null || SameMaybe(Some(Val(w, grant, ProviderId)), Get(w, x, ProviderId)))
      && WithinBounds(w, grant, Val(w, x, kind.time))
  {
  }

  lemma ActionsExactly(a: Option<Json>, b: Option<Json>)
    requires (a.Some? ==> Dictionary(a.value)) && (b.Some? ==> Dictionary(b.value))
    ensures ActionsEqual(a, b) <==> SameAction(a, b)
  {
    if a.Some? && b.Some? {
      TextsExactly(a.value, b.value);
      if SameAction(a, b) { SameFalsy(a.value, b.value); }
    }
  }

  lemma TextsExactly(v: Json, u: Json)
    requires Dictionary(v) && Dictionary(u)
    ensures TextOf(v).Some? && TextOf(v) == TextOf(u) <==>
      Printable(Dialect.Nenrin, v) && Printable(Dialect.Nenrin, u) && SameValue(v, u)
  {
    if Printable(Dialect.Nenrin, v) && Printable(Dialect.Nenrin, u) { EqualTextEqualValue(Dialect.Nenrin, v, u); }
  }

  lemma SameFalsy(v: Json, u: Json)
    requires SameValue(v, u)
    ensures Falsy(Some(v)) <==> Falsy(Some(u))
  {
  }

  /**
   The comparison of a grant with a receipt or an intent finds no reason exactly when the record fulfils the grant.
   */
  lemma PairPassesExactly(w: World, grant: Record, x: Record, kind: Bound)
    requires Dictionary(Obj(grant)) && Dictionary(Obj(x))
    ensures PairReason(w, grant, x, kind).None? <==> Fulfils(w, grant, x, kind)
  {
    IdentityExactly(w, grant, x, kind);
    PlaceExactly(w, grant, x, kind);
    ValDictionary(w, grant, Action);
    ValDictionary(w, x, kind.action);
    ActionsExactly(Get(w, grant, Action), Get(w, x, kind.action));
  }

  /** A string is equal only to itself, so the grant's provider is the receipt's signer. */
  lemma SameProvider(w: World, gp: Json, x: Record)
    requires SameMaybe(Some(gp), Get(w, x, ProviderId)) && Val(w, x, ProviderId).Str?
    ensures gp == Val(w, x, ProviderId)
  {
  }

  lemma RecomputedIsText(w: World, r: Record, part: Part, name: Name)
    requires Recomputes(w, r, part, name)
    ensures Get(w, r, name).Some? && Get(w, r, name).value.Str?
  {
  }

  /** A first receipt that passes is authentic. */
  lemma PrimaryAuthentic(w: World, sigs: bool, grant: Record, x: Record)
    requires Val(w, grant, ProviderId) != Null && PairReason(w, grant, x, AReceipt).None? && Weighs(w, sigs, grant, x)
    ensures Authentic(w, sigs, grant, x)
  {
    IdentityExactly(w, grant, x, AReceipt);
    PlaceExactly(w, grant, x, AReceipt);
    RecomputedIsText(w, grant, GrantPart, GrantRef);
    if sigs { SameProvider(w, Val(w, grant, ProviderId), x); }
  }

  lemma {:induction false} AuthenticFirst(w: World, sigs: bool, grant: Record, rs: seq<Record>)
    requires rs != [] && Authentic(w, sigs, grant, rs[0])
    ensures AuthenticOnly(w, sigs, grant, rs) != [] && AuthenticOnly(w, sigs, grant, rs)[0] == rs[0]
    decreases |rs|
  {
    if |rs| > 1 { AuthenticFirst(w, sigs, grant, rs[..|rs| - 1]); }
  }

  lemma {:induction false} AuthenticKept(w: World, sigs: bool, grant: Record, rs: seq<Record>, x: Record)
    requires x in rs && Authentic(w, sigs, grant, x)
    ensures x in AuthenticOnly(w, sigs, grant, rs)
    decreases |rs|
  {
    var before := rs[..|rs| - 1];
    assert rs == before + [rs[|rs| - 1]];
    if x in before { AuthenticKept(w, sigs, grant, before, x); }
  }

  predicate AllRefusalsClear(w: World, b: Bundle)
  {
    forall c :: !Refuses(w, b, c)
  }

  lemma NotRefused(w: World, b: Bundle, c: Code)
    requires AllRefusalsClear(w, b)
    ensures !Refuses1(w, b, c) && !Refuses2(w, b, c)
  {
    assert !Refuses(w, b, c);
  }

  /**
   Acceptance of a bundle with a grant: provider named, the first receipt reconciled, every authentic receipt of one
   id.
   */
  lemma AcceptedExecution(w: World, b: Bundle)
    requires b.grant.Present? && AllRefusalsClear(w, b)
    ensures b.receipts != []
    ensures Val(w, b.grant.record, ProviderId) != Null
    ensures PairReason(w, b.grant.record, b.receipts[0], AReceipt).None?
    ensures Reconciled(w, b) == Some(b.receipts[0])
    ensures forall x | x in b.receipts && Authentic(w, b.sigs, b.grant.record, x) ::
      Get(w, x, ReceiptId) == Get(w, b.receipts[0], ReceiptId)
  {
    var grant := b.grant.record;
    var own := AuthenticOnly(w, b.sigs, grant, b.receipts);
    ClearExecution(w, b);
    PrimaryAuthentic(w, b.sigs, grant, b.receipts[0]);
    AuthenticFirst(w, b.sigs, grant, b.receipts);
    forall x | x in b.receipts && Authentic(w, b.sigs, grant, x)
      ensures Get(w, x, ReceiptId) == Get(w, b.receipts[0], ReceiptId)
    {
      AuthenticKept(w, b.sigs, grant, b.receipts, x);
      OneIdAmong(w, own, x);
    }
  }

  lemma OneIdAmong(w: World, own: seq<Record>, x: Record)
    requires OneId(w, own) && x in own
    ensures Get(w, x, ReceiptId) == Get(w, own[0], ReceiptId)
  {
    var i :| 0 <= i < |own| && own[i] == x;
  }

  /** What the clear execution codes say. */
  lemma ClearExecution(w: World, b: Bundle)
    requires b.grant.Present? && AllRefusalsClear(w, b)
    ensures Paired(b) && Val(w, b.grant.record, ProviderId) != Null
    ensures PairReason(w, b.grant.record, b.receipts[0], AReceipt).None?
    ensures Weighs(w, b.sigs, b.grant.record, b.receipts[0])
    ensures OneId(w, AuthenticOnly(w, b.sigs, b.grant.record, b.receipts))
  {
    assert Paired(b) by { NotRefused(w, b, IncompletePair); }
    ClearPair(w, b);
    ClearSignatures(w, b);
    ClearReconciliation(w, b);
  }

  lemma ClearPair(w: World, b: Bundle)
    requires Paired(b) && AllRefusalsClear(w, b)
    ensures PairReason(w, b.grant.record, b.receipts[0], AReceipt).None?
  {
    NotRefused(w, b, ExecutionInvalid);
  }

  lemma ClearSignatures(w: World, b: Bundle)
    requires Paired(b) && AllRefusalsClear(w, b)
    ensures Weighs(w, b.sigs, b.grant.record, b.receipts[0])
  {
    NotRefused(w, b, ExecutionSignatureInvalid);
  }

  lemma ClearReconciliation(w: World, b: Bundle)
    requires Paired(b) && AllRefusalsClear(w, b)
    ensures Val(w, b.grant.record, ProviderId) != Null
    ensures OneId(w, AuthenticOnly(w, b.sigs, b.grant.record, b.receipts))
  {
    NotRefused(w, b, Unreconciled);
    NotRefused(w, b, Equivocation);
  }

  /** Two texts with one digest. */
  ghost predicate TextsCollide(w: World, t: Text, u: Text)
  {
    t != u && w.Hash(t) == w.Hash(u)
  }

  ghost predicate SameContent(w: World, x: Record, y: Record)
  {
    var t, u := TextOf(Obj(Preimage(w, x, ReceiptPart))), TextOf(Obj(Preimage(w, y, ReceiptPart)));
    t.Some? && u.Some? && (t == u || TextsCollide(w, t.value, u.value))
  }

  /** Receipts that recompute to one id have one content, member for member, unless two texts share a digest. */
  lemma OneIdOneContent(w: World, x: Record, y: Record)
    requires Recomputes(w, x, ReceiptPart, ReceiptId) && Recomputes(w, y, ReceiptPart, ReceiptId)
    requires Get(w, x, ReceiptId) == Get(w, y, ReceiptId)
    ensures SameContent(w, x, y)
  {
  }

  lemma {:induction false} LookupDictionary(r: Record, key: Text)
    requires forall i | 0 <= i < |r| :: Dictionary(r[i].value)
    ensures Lookup(r, key).Some? ==> Dictionary(Lookup(r, key).value)
  {
    if r != [] && r[0].key != key { LookupDictionary(r[1..], key); }
  }

  lemma ValDictionary(w: World, r: Record, n: Name)
    requires Dictionary(Obj(r))
    ensures Dictionary(Val(w, r, n)) && (Get(w, r, n).Some? ==> Dictionary(Get(w, r, n).value))
  {
    LookupDictionary(r, w.Key(n));
  }

  lemma {:induction false} ObjectsDictionary(vs: seq<Json>)
    requires forall i | 0 <= i < |vs| :: Dictionary(vs[i])
    ensures forall r | r in Objects(vs) :: Dictionary(Obj(r))
  {
    if vs != [] {
      ObjectsDictionary(vs[1..]);
      if vs[0].Obj? { assert vs[0] == Obj(vs[0].members); }
    }
  }

  lemma {:induction false} DistinctSubset(rs: seq<Record>)
    ensures forall r | r in Distinct(rs) :: r in rs
    decreases |rs|
  {
    if rs != [] {
      DistinctSubset(rs[..|rs| - 1]);
    }
  }

  lemma DistinctGrows(rs: seq<Record>)
    requires rs != []
    ensures Distinct(rs[..|rs| - 1]) <= Distinct(rs)
  {
  }

  /**
   Nothing is lost by deduplication: every candidate is kept, or one with its text is; the first candidate stays
   first.
   */
  lemma {:induction false} DistinctCovers(rs: seq<Record>, i: nat)
    requires i < |rs|
    ensures rs[i] in Distinct(rs) || Repeated(Distinct(rs), rs[i])
    ensures Distinct(rs) != [] && Distinct(rs)[0] == rs[0]
    decreases |rs|
  {
    var before, last := rs[..|rs| - 1], rs[|rs| - 1];
    DistinctGrows(rs);
    if |rs| > 1 {
      DistinctCovers(before, if i < |before| then i else 0);
      if i < |before| && before[i] !in Distinct(before) {
        RepeatedGrows(Distinct(before), Distinct(rs), rs[i]);
      }
    }
    if i == |before| && !Repeated(Distinct(before), last) {
      assert last in Distinct(before) + [last];
    }
  }

  lemma RepeatedGrows(kept: seq<Record>, more: seq<Record>, r: Record)
    requires kept <= more && Repeated(kept, r)
    ensures Repeated(more, r)
  {
    var i :| 0 <= i < |kept| && TextOf(Obj(kept[i])) == TextOf(Obj(r));
    assert more[i] == kept[i];
  }

  /** Every record of a parsed bundle is a dictionary with dictionary members. */
  lemma RecordsDictionary(w: World, v: Json)
    requires Dictionary(v)
    ensures Read(w, v).grant.Present? ==> Dictionary(Obj(Read(w, v).grant.record))
    ensures forall r | r in Read(w, v).receipts :: Dictionary(Obj(r))
  {
    var m := Members(v);
    assert Dictionary(Obj(m));
    ValDictionary(w, m, Grant);
    ValDictionary(w, m, Receipt);
    ValDictionary(w, m, Receipts);
    var more, first := ListOf(Val(w, m, Receipts)), SlotOf(Val(w, m, Receipt));
    ObjectsDictionary(more);
    DistinctSubset(Candidates(first, more));
  }

  /** The grant's caller signed the grant, and the receipt's provider the receipt, each over its preimage. */
  ghost predicate CallerAndProviderSigned(w: World, grant: Record, x: Record)
  {
    && SigVerifies(w, Val(w, grant, CallerId), Val(w, grant, CallerSig), Obj(Preimage(w, grant, GrantPart)))
    && SigVerifies(w, Val(w, x, ProviderId), Val(w, x, ProviderSig), Obj(Preimage(w, x, ReceiptPart)))
  }

  /** All the receipts the bundle carries, before any is dropped. */
  function Offered(w: World, v: Json): seq<Record>
  {
    Candidates(SlotOf(Val(w, Members(v), Receipt)), ListOf(Val(w, Members(v), Receipts)))
  }

  /**
   An accepted bundle that carries a grant: the grant names a provider, the reconciled receipt is the first one the
   bundle carries, it fulfils the grant, caller and provider signed where required, and every receipt authentic to
   that provider, dropped as a duplicate or not, has its id and its content.
   */
  lemma AcceptedGrant(w: World, v: Json)
    requires Dictionary(v) && Read(w, v).grant.Present? && AllRefusalsClear(w, Read(w, v))
    ensures
      var b := Read(w, v);
      var grant := b.grant.record;
      && Val(w, grant, ProviderId) != Null
      && b.receipts != []
      && Offered(w, v)[0] == b.receipts[0]
      && Reconciled(w, b) == Some(b.receipts[0])
      && Fulfils(w, grant, b.receipts[0], AReceipt)
      && (b.sigs ==> CallerAndProviderSigned(w, grant, b.receipts[0]))
      && (forall x | x in Offered(w, v) && Authentic(w, b.sigs, grant, x) ::
            Get(w, x, ReceiptId) == Get(w, b.receipts[0], ReceiptId) && SameContent(w, b.receipts[0], x))
  {
    var b := Read(w, v);
    var grant := b.grant.record;
    AcceptedExecution(w, b);
    RecordsDictionary(w, v);
    var first := b.receipts[0];
    PairPassesExactly(w, grant, first, AReceipt);
    ClearExecution(w, b);
    DistinctSubset(Offered(w, v));
    DistinctCovers(Offered(w, v), 0);
    forall x | x in Offered(w, v) && Authentic(w, b.sigs, grant, x)
      ensures Get(w, x, ReceiptId) == Get(w, first, ReceiptId) && SameContent(w, first, x)
    {
      OfferedHasId(w, v, x);
      OneIdOneContent(w, first, x);
    }
  }

  lemma OfferedHasId(w: World, v: Json, x: Record)
    requires Dictionary(v) && Read(w, v).grant.Present? && AllRefusalsClear(w, Read(w, v))
    requires x in Offered(w, v) && Authentic(w, Read(w, v).sigs, Read(w, v).grant.record, x)
    ensures Read(w, v).receipts != [] && Get(w, x, ReceiptId) == Get(w, Read(w, v).receipts[0], ReceiptId)
  {
    var b := Read(w, v);
    var i :| 0 <= i < |Offered(w, v)| && Offered(w, v)[i] == x;
    AcceptedExecution(w, b);
    DistinctCovers(Offered(w, v), i);
    if x !in b.receipts {
      var k :| 0 <= k < |b.receipts| && TextOf(Obj(b.receipts[k])) == TextOf(Obj(x));
      var y := b.receipts[k];
      assert y in b.receipts;
      OfferedDictionary(w, v);
      RecordsDictionary(w, v);
      RecomputedIsText(w, b.grant.record, GrantPart, GrantRef) by {
        IdentityExactly(w, b.grant.record, b.receipts[0], AReceipt);
      }
      SameTextAuthentic(w, b.sigs, b.grant.record, x, y);
    }
  }

  // ----- Records with one canonical text

  lemma SameTextSameValue(x: Record, y: Record)
    requires Dictionary(Obj(x)) && Dictionary(Obj(y)) && TextOf(Obj(x)).Some? && TextOf(Obj(x)) == TextOf(Obj(y))
    ensures SameValue(Obj(x), Obj(y)) && SameValue(Obj(y), Obj(x))
  {
    EqualTextEqualValue(Dialect.Nenrin, Obj(x), Obj(y));
    EqualTextEqualValue(Dialect.Nenrin, Obj(y), Obj(x));
  }

  lemma {:induction false} LookupAt(r: Record, i: nat)
    requires i < |r| && DistinctKeys(r)
    ensures Lookup(r, r[i].key) == Some(r[i].value)
  {
    if i > 0 { LookupAt(r[1..], i - 1); }
  }

  lemma {:induction false} LookupFound(r: Record, key: Text) returns (i: nat)
    requires Lookup(r, key).Some?
    ensures i < |r| && r[i].key == key && Lookup(r, key) == Some(r[i].value)
  {
    if r[0].key == key {
      i := 0;
    } else {
      i := LookupFound(r[1..], key);
      i := i + 1;
    }
  }

  lemma LookupSame(x: Record, y: Record, key: Text)
    requires SameValue(Obj(x), Obj(y)) && DistinctKeys(y) && Lookup(x, key).Some?
    ensures Lookup(y, key).Some? && SameValue(Lookup(x, key).value, Lookup(y, key).value)
  {
    var i := LookupFound(x, key);
    assert SameMember(x[i], y);
    var j :| 0 <= j < |y| && y[j].key == x[i].key && SameValue(x[i].value, y[j].value);
    LookupAt(y, j);
  }

  /** A value equal to one of two values that are the same is equal to the other. */
  lemma {:induction false} EqualSame(v: Json, u: Json, u': Json)
    requires Equal(v, u) && SameValue(u, u')
    ensures Equal(v, u')
    decreases v
  {
    match v
    case Arr(xs) =>
      forall i | 0 <= i < |xs| ensures Equal(xs[i], u'.items[i]) { EqualSame(xs[i], u.items[i], u'.items[i]); }
    case Obj(ms) =>
      forall i | 0 <= i < |ms| ensures EqualMember(ms[i], u'.members) {
        assert EqualMember(ms[i], u.members);
        var k :| 0 <= k < |u.members| && u.members[k].key == ms[i].key && Equal(ms[i].value, u.members[k].value);
        assert SameMember(u.members[k], u'.members);
        var j :| 0 <= j < |u'.members| && u'.members[j].key == ms[i].key
          && SameValue(u.members[k].value, u'.members[j].value);
        EqualSame(ms[i].value, u.members[k].value, u'.members[j].value);
      }
    case _ =>
  }

  /** The preimage, in canonical members, is a selection of the record's canonical members. */
  lemma {:induction false} CanonOfPreimage(w: World, r: Record, part: Part)
    ensures CanonMembers(Dialect.Nenrin, Preimage(w, r, part))
         == Filter((m: Member) => !Derived(w, part, m.key), CanonMembers(Dialect.Nenrin, r))
  {
    if r != [] {
      CanonOfPreimage(w, r[1..], part);
      var cs := CanonMembers(Dialect.Nenrin, r);
      assert cs[1..] == CanonMembers(Dialect.Nenrin, r[1..]);
      var rest := Preimage(w, r[1..], part);
      if !Derived(w, part, r[0].key) {
        assert Preimage(w, r, part) == [r[0]] + rest;
        assert ([r[0]] + rest)[1..] == rest;
      } else {
        assert Preimage(w, r, part) == rest;
      }
    }
  }

  lemma {:induction false} PreimagePrintable(w: World, r: Record, part: Part)
    requires Printable(Dialect.Nenrin, Obj(r))
    ensures Printable(Dialect.Nenrin, Obj(Preimage(w, r, part)))
  {
    if r != [] {
      assert Printable(Dialect.Nenrin, Obj(r[1..]));
      PreimagePrintable(w, r[1..], part);
    }
  }

  /** Selections of two lists with the same elements have the same elements, and sort alike. */
  lemma SelectionsSortAlike<T(!new)>(le: (T, T) -> bool, p: T -> bool, a: seq<T>, b: seq<T>)
    requires TotalPreorder(le) && Strict(le, a) && multiset(a) == multiset(b)
    ensures Sort(le, Filter(p, a)) == Sort(le, Filter(p, b))
  {
    forall x ensures multiset(Filter(p, a))[x] == multiset(Filter(p, b))[x] {
      FilterCount(p, a, x);
      FilterCount(p, b, x);
    }
    assert multiset(Filter(p, a)) == multiset(Filter(p, b));
    SortOfPermutation(le, Filter(p, a), Filter(p, b));
  }

  /** Records with one canonical text have one preimage text. */
  lemma SameTextSamePreimage(w: World, x: Record, y: Record, part: Part)
    requires Dictionary(Obj(x)) && Dictionary(Obj(y)) && TextOf(Obj(x)).Some? && TextOf(Obj(x)) == TextOf(Obj(y))
    ensures TextOf(Obj(Preimage(w, x, part))).Some?
    ensures TextOf(Obj(Preimage(w, x, part))) == TextOf(Obj(Preimage(w, y, part)))
  {
    var d, le := Dialect.Nenrin, MemberOrder(Dialect.Nenrin);
    var a, b := CanonMembers(d, x), CanonMembers(d, y);
    TextDecodes(d, Obj(x));
    TextDecodes(d, Obj(y));
    assert Sort(le, a) == Sort(le, b);
    SortPermutes(le, a);
    SortPermutes(le, b);
    CanonKeysOk(d, x);
    KeysStrict(d, a);
    MemberOrderTotal(d);
    CanonOfPreimage(w, x, part);
    CanonOfPreimage(w, y, part);
    SelectionsSortAlike(le, (m: Member) => !Derived(w, part, m.key), a, b);
    PreimagePrintable(w, x, part);
    PreimagePrintable(w, y, part);
  }

  /** A receipt with the text of an authentic one is authentic, under the same id. */
  lemma SameTextAuthentic(w: World, sigs: bool, grant: Record, x: Record, y: Record)
    requires Dictionary(Obj(x)) && Dictionary(Obj(y)) && TextOf(Obj(x)).Some? && TextOf(Obj(x)) == TextOf(Obj(y))
    requires Get(w, grant, GrantRef).Some? && Get(w, grant, GrantRef).value.Str? && Authentic(w, sigs, grant, x)
    ensures Authentic(w, sigs, grant, y) && Get(w, y, ReceiptId) == Get(w, x, ReceiptId)
  {
    SameTextSameValue(x, y);
    SameTextSamePreimage(w, x, y, ReceiptPart);
    LookupSame(x, y, w.Key(GrantRef));
    LookupSame(x, y, w.Key(ReceiptId));
    LookupSame(x, y, w.Key(ProviderId));
    EqualSame(Val(w, grant, ProviderId), Get(w, x, ProviderId).value, Get(w, y, ProviderId).value);
    if sigs { LookupSame(x, y, w.Key(ProviderSig)); }
  }

  lemma OfferedDictionary(w: World, v: Json)
    requires Dictionary(v)
    ensures forall r | r in Offered(w, v) :: Dictionary(Obj(r))
  {
    var m := Members(v);
    assert Dictionary(Obj(m));
    ValDictionary(w, m, Receipt);
    ValDictionary(w, m, Receipts);
    ObjectsDictionary(ListOf(Val(w, m, Receipts)));
  }

  // ----- Intent, evidence and links

  /**
   An accepted bundle that carries an intent carries a grant; the intent fulfils it, and what it declared is, as a
   value, what the reconciled receipt executed. So a divergence between declared and executed is never found in an
   accepted bundle.
   */
  lemma AcceptedIntent(w: World, v: Json)
    requires Dictionary(v) && Read(w, v).intent.Present? && AllRefusalsClear(w, Read(w, v))
    ensures
      var b := Read(w, v);
      && b.grant.Present?
      && b.receipts != []
      && Fulfils(w, b.grant.record, b.intent.record, AnIntent)
      && SameAction(Get(w, b.intent.record, ProposedAction), Get(w, b.receipts[0], ExecutedAction))
      && (b.sigs ==> SignedBy(w, b.intent.record, IntentPart, ProviderId, IntentSig))
      && !Finds(w, b, DeclaredExecutedDivergence)
  {
    var b := Read(w, v);
    ClearIntent(w, b);
    ClearExecution(w, b);
    AcceptedExecution(w, b);
    RecordsDictionary(w, v);
    IntentDictionary(w, v);
    PairPassesExactly(w, b.grant.record, b.intent.record, AnIntent);
    IntentExecuted(w, b.grant.record, b.intent.record, b.receipts[0]);
    NoDivergence(w, b);
  }

  lemma ClearIntent(w: World, b: Bundle)
    requires b.intent.Present? && AllRefusalsClear(w, b)
    ensures b.grant.Present?
    ensures PairReason(w, b.grant.record, b.intent.record, AnIntent).None?
    ensures b.sigs ==> SignedBy(w, b.intent.record, IntentPart, ProviderId, IntentSig)
  {
    NotRefusedLater(w, b, PreflightWithoutGrant);
    NotRefusedLater(w, b, PreflightInvalid);
    NotRefusedLater(w, b, PreflightSignatureInvalid);
  }

  lemma IntentDictionary(w: World, v: Json)
    requires Dictionary(v) && Read(w, v).intent.Present?
    ensures Dictionary(Obj(Read(w, v).intent.record))
  {
    assert Dictionary(Obj(Members(v)));
    ValDictionary(w, Members(v), Intent);
  }

  lemma IntentExecuted(w: World, grant: Record, intent: Record, first: Record)
    requires Dictionary(Obj(intent)) && Dictionary(Obj(first))
    requires PairReason(w, grant, intent, AnIntent).None? && PairReason(w, grant, first, AReceipt).None?
    ensures SameAction(Get(w, intent, ProposedAction), Get(w, first, ExecutedAction))
    ensures !Diverged(w, intent, first)
  {
    ValDictionary(w, intent, ProposedAction);
    ValDictionary(w, first, ExecutedAction);
    ActionsChain(Get(w, grant, Action), Get(w, intent, ProposedAction), Get(w, first, ExecutedAction));
  }

  lemma NoDivergence(w: World, b: Bundle)
    requires b.intent.Present? && b.receipts != [] && Reconciled(w, b) == Some(b.receipts[0])
    requires !Diverged(w, b.intent.record, b.receipts[0])
    ensures !Finds(w, b, DeclaredExecutedDivergence)
  {
  }

  /** Two actions equal to a third are the same action, with one text. */
  lemma ActionsChain(g: Option<Json>, p: Option<Json>, e: Option<Json>)
    requires ActionsEqual(g, p) && ActionsEqual(g, e) && Dictionary(p.value) && Dictionary(e.value)
    ensures SameAction(p, e) && TextOf(p.value).Some? && TextOf(p.value) == TextOf(e.value)
  {
    ActionsExactly(p, e);
  }

  lemma NotRefusedLater(w: World, b: Bundle, c: Code)
    requires AllRefusalsClear(w, b)
    ensures !Refuses3(w, b, c) && !Refuses4(w, b, c) && !Refuses5(w, b, c)
  {
    assert !Refuses(w, b, c);
  }

  /** The observation links to the receipt id that its detail reference names. */
  ghost predicate LinksTo(w: World, o: Record, id: Text)
  {
    Val(w, Members(Val(w, o, Conduct)), DetailRef) == Str(w.Key(ExecPrefix) + id)
  }

  lemma {:induction false} LinkListed(w: World, obs: seq<Record>, o: Record, id: Text)
    requires o in obs && LinksTo(w, o, id)
    ensures id in Links(w, obs)
    decreases |obs|
  {
    var n := |obs| - 1;
    assert obs == obs[..n] + [obs[n]];
    if obs[n] == o {
      assert (w.Key(ExecPrefix) + id)[|w.Key(ExecPrefix)|..] == id;
      assert LinkOf(w, o) == [id];
    } else {
      LinkListed(w, obs[..n], o, id);
    }
  }

  /**
   In an accepted bundle with a grant, every observation that links to a receipt links to the id the first receipt
   carries.
   */
  lemma AcceptedLinks(w: World, b: Bundle, o: Record, id: Text)
    requires b.grant.Present? && b.raw != [] && AllRefusalsClear(w, b) && o in b.obs && LinksTo(w, o, id)
    ensures b.receipts != [] && Get(w, b.receipts[0], ReceiptId) == Some(Str(id))
  {
    AcceptedExecution(w, b);
    NotRefusedLater(w, b, LinkageMismatch);
    LinkListed(w, b.obs, o, id);
    assert Id(w, b.receipts[0], ReceiptPart) == Some(id);
    IdentityExactly(w, b.grant.record, b.receipts[0], AReceipt);
  }

  /**
   In an accepted bundle with a grant, the evidence looked at is the first receipt's: absent, or of a known form and
   reported as unchecked.
   */
  lemma AcceptedEvidence(w: World, b: Bundle)
    requires b.grant.Present? && AllRefusalsClear(w, b)
    ensures b.receipts != [] && Target(w, b) == Some(b.receipts[0])
    ensures Falsy(EvidenceOf(w, b.receipts[0])) || EvidenceForm(w, EvidenceOf(w, b.receipts[0]).value)
    ensures Finds(w, b, NoEvidenceBound) <==> !Finds(w, b, EvidenceBoundUnchecked)
  {
    AcceptedExecution(w, b);
    NotRefusedLater(w, b, EvidenceInvalid);
    EvidenceFindings(w, b);
  }

  lemma EvidenceFindings(w: World, b: Bundle)
    requires b.receipts != [] && Target(w, b) == Some(b.receipts[0]) && !Refuses4(w, b, EvidenceInvalid)
    ensures Finds(w, b, NoEvidenceBound) <==> Falsy(EvidenceOf(w, b.receipts[0]))
    ensures Finds(w, b, EvidenceBoundUnchecked) <==> !Falsy(EvidenceOf(w, b.receipts[0]))
  {
  }

  // ----- Delegation

  /** Observations one after the other from a root, each naming the id of the one before it. */
  ghost predicate Path(w: World, obs: seq<Record>, path: seq<Record>)
  {
    && path != []
    && (forall k | 0 <= k < |path| :: path[k] in obs && SeqOf(w, path[k]) == Some(k))
    && Get(w, path[0], PrevEvidenceId) == Some(Null)
    && (forall k | 0 < k < |path| :: PrecededAt(w, path, k))
  }

  ghost predicate PrecededAt(w: World, path: seq<Record>, k: int)
    requires 0 < k < |path|
  {
    Precedes(w, path[k - 1], path[k])
  }

  lemma PathOne(w: World, obs: seq<Record>, path: seq<Record>, o: Record)
    requires Path(w, obs, path) && o in obs && SeqOf(w, o) == Some(|path|) && Precedes(w, path[|path| - 1], o)
    ensures Path(w, obs, path + [o])
  {
    var more := path + [o];
    forall k | 0 < k < |more| ensures PrecededAt(w, more, k) {
      assert more[k - 1] == path[k - 1];
      if k < |path| {
        assert more[k] == path[k] && PrecededAt(w, path, k);
      }
    }
    forall k | 0 <= k < |more| ensures more[k] in obs && SeqOf(w, more[k]) == Some(k) {
      assert k < |path| ==> more[k] == path[k];
    }
  }

  /**
   In a chain the procedure accepts, every observation at sequence s ends a linked path of s + 1 observations from a
   root.
   */
  lemma {:induction false} DelegationPath(w: World, obs: seq<Record>, o: Record, s: nat) returns (path: seq<Record>)
    requires Chained(w, obs) && o in obs && SeqOf(w, o) == Some(s)
    ensures PathTo(w, obs, path, o, s)
    decreases s
  {
    if s == 0 {
      path := [o];
      RootPath(w, obs, o);
    } else {
      var before := Predecessor(w, obs, o, s);
      var shorter := DelegationPath(w, obs, before, s - 1);
      PathOn(w, obs, shorter, before, o, s);
      path := shorter + [o];
    }
  }

  /** A path of s + 1 observations from a root to o. */
  ghost predicate PathTo(w: World, obs: seq<Record>, path: seq<Record>, o: Record, s: nat)
  {
    Path(w, obs, path) && |path| == s + 1 && path[s] == o
  }

  lemma RootPath(w: World, obs: seq<Record>, o: Record)
    requires Chained(w, obs) && o in obs && SeqOf(w, o) == Some(0)
    ensures PathTo(w, obs, [o], o, 0)
  {
    assert Linked(w, obs, o);
  }

  lemma PathOn(w: World, obs: seq<Record>, path: seq<Record>, before: Record, o: Record, s: nat)
    requires s > 0 && PathTo(w, obs, path, before, s - 1) && o in obs && SeqOf(w, o) == Some(s) && Precedes(w, before, o)
    ensures PathTo(w, obs, path + [o], o, s)
  {
    PathOne(w, obs, path, o);
  }

  lemma Predecessor(w: World, obs: seq<Record>, o: Record, s: nat) returns (before: Record)
    requires Chained(w, obs) && o in obs && SeqOf(w, o) == Some(s) && s > 0
    ensures before in obs && SeqOf(w, before) == Some(s - 1) && Precedes(w, before, o)
  {
    assert Linked(w, obs, o);
    var i :| 0 <= i < |obs| && Precedes(w, obs[i], o);
    before := obs[i];
  }

  /** In an accepted bundle every observation has such a path, and each recomputes and is independently witnessed. */
  lemma AcceptedDelegation(w: World, b: Bundle, o: Record) returns (path: seq<Record>)
    requires b.raw != [] && AllRefusalsClear(w, b) && o in b.obs
    ensures Path(w, b.obs, path) && path[|path| - 1] == o && SeqOf(w, o) == Some(|path| - 1)
    ensures AllOk(w, b.sigs, b.obs)
  {
    ClearDelegation(w, b);
    ChainNumbers(w, b.obs, o);
    path := DelegationPath(w, b.obs, o, SeqOf(w, o).value);
  }

  ghost predicate AllOk(w: World, sigs: bool, obs: seq<Record>)
  {
    forall o | o in obs :: ObservationOk(w, sigs, o)
  }

  lemma ClearDelegation(w: World, b: Bundle)
    requires b.raw != [] && AllRefusalsClear(w, b)
    ensures AllOk(w, b.sigs, b.obs) && Chained(w, b.obs)
  {
    NotRefused(w, b, ObservationInvalid);
    NotRefused(w, b, ChainBroken);
  }

  lemma ChainNumbers(w: World, obs: seq<Record>, o: Record)
    requires Chained(w, obs) && o in obs
    ensures SeqOf(w, o).Some? && SeqOf(w, o).value >= 0
  {
    assert StepDown(w, obs, o);
  }
}
