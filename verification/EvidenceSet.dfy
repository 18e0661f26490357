/** Validation, construction and resolution of an evidence set. */
module EvidenceSet {
  import opened Basics
  import opened Octets
  import opened Ordering
  import opened Inclusion
  import opened EvidenceRoot

  /** A JSON member: absent, or a value of some type. Strings are UTF-8 bytes. */
  datatype Field = Absent | Null | Bool(b: bool) | Int(n: int) | Str(s: Bytes) | Other

  predicate Missing(f: Field)
  {
    f.Absent? || f.Null?
  }

  datatype Entry =
    | NotObject
    | Source(url: Field, snippet: Field, kind: Field, at: Field, pinned: Field, resource: Field, unpinnedReason: Field)

  datatype Sources = NoSources | List(entries: seq<Entry>) | NotList

  /** The declared root is held as the digest its hex text encodes. */
  datatype Set =
    | NotSet
    | Set(version: Field, sources: Sources, sourceCount: Field, pinnedCount: Field, root: Field,
          fullyPinned: Field, at: Field)

  datatype Condition =
    | SetNotObject | VersionNotString | NoSourcesNamed | SourcesNotArray
    | EntryNotObject | AtNotCanonical | PinnedNotBoolean | UrlNotString | ContainsNul | SnippetNotHex | ResourceNotHex
    | ResourceForFullResource | SnippetAbsentWhenPinned | KindInvalidWhenPinned | SnippetMemberAbsent
    | SnippetPresentWhenUnpinned | KindPresentWhenUnpinned | ReasonInvalid
    | SourceCountMismatch | PinnedCountMismatch | RootWithNoPinned | RootAbsentWithPinned | FullyPinnedMismatch
    | AtNotLeast | DuplicateTuple | RootNotRecomputable

  /** The form rules whose text details do not matter here: canonical timestamps, the version, the enumerated words. */
  datatype Rules = Rules(
    timestamp: Bytes -> bool, version: Bytes, kinds: set<Bytes>, fullResource: Bytes, reasons: set<Bytes>)
  {

    predicate Timestamp(f: Field) { f.Str? && timestamp(f.s) }

    predicate Kind(f: Field) { f.Str? && f.s in kinds }

    predicate FullResource(f: Field) { f.Str? && f.s == fullResource }

    predicate Reason(f: Field) { f.Str? && f.s in reasons }
  }

  predicate IsHex64(f: Field)
  {
    f.Str? && |f.s| == 64 && forall c :: c in f.s ==> 48 <= c <= 57 || 97 <= c <= 102
  }

  predicate HasNul(f: Field)
  {
    f.Str? && 0 in f.s
  }

  // ---------------------------------------------------------------- what a well-formed set is

  predicate EntryOk(r: Rules, e: Entry)
  {
    && e.Source?
    && r.Timestamp(e.at) && e.pinned.Bool? && e.url.Str?
    && !HasNul(e.url) && !HasNul(e.snippet) && !HasNul(e.kind) && !HasNul(e.at)
    && (Missing(e.resource) || IsHex64(e.resource))
    && !(r.FullResource(e.kind) && !Missing(e.resource))
    && (if e.pinned.b then IsHex64(e.snippet) && r.Kind(e.kind)
        else e.snippet.Null? && Missing(e.kind) && r.Reason(e.unpinnedReason))
  }

  predicate IsPinned(e: Entry)
  {
    e.Source? && e.pinned == Bool(true)
  }

  function Text(f: Field): Bytes
  {
    if f.Str? then f.s else []
  }

  function ItemOf(e: Entry): Item
  {
    if e.Source? then Item(Text(e.url), Text(e.snippet), Text(e.kind), Text(e.at)) else Item([], [], [], [])
  }

  /** The pinned items of a source list. */
  function PinnedItems(es: seq<Entry>): seq<Item>
  {
    Map(ItemOf, Filter(IsPinned, es))
  }

  /** Equal members; absent and null are read alike. */
  predicate SameMember(f: Field, g: Field)
  {
    f == g || (Missing(f) && Missing(g))
  }

  /** The two entries record one retrieval twice. */
  predicate SameRetrieval(a: Entry, b: Entry)
    requires a.Source? && b.Source?
  {
    && a.url == b.url && a.at == b.at
    && (IsPinned(a) && IsPinned(b) ==> SameMember(a.snippet, b.snippet) && SameMember(a.kind, b.kind))
  }

  predicate RepeatAt(es: seq<Entry>, i: nat, j: nat)
    requires i < |es| && j < |es|
  {
    es[i].Source? && es[j].Source? && SameRetrieval(es[i], es[j])
  }

  predicate NoRepeat(es: seq<Entry>)
  {
    forall i, j :: 0 <= i < j < |es| ==> !RepeatAt(es, i, j)
  }

  function AtOf(e: Entry): Bytes
  {
    if e.Source? then Text(e.at) else []
  }

  /** The bytewise least timestamp of a non-empty list. */
  function Least(es: seq<Entry>): Bytes
    requires es != []
  {
    if |es| == 1 then AtOf(es[0])
    else var t := Least(es[1..]); if BytesLe(AtOf(es[0]), t) then AtOf(es[0]) else t
  }

  lemma {:induction false} LeastIsLeast(es: seq<Entry>)
    requires es != []
    ensures (exists e :: e in es && AtOf(e) == Least(es)) && forall e :: e in es ==> BytesLe(Least(es), AtOf(e))
  {
    BytesLeTotal(AtOf(es[0]), AtOf(es[0]));
    if |es| > 1 {
      var first, t := AtOf(es[0]), Least(es[1..]);
      LeastIsLeast(es[1..]);
      BytesLeTotal(first, t);
      forall e | e in es ensures BytesLe(Least(es), AtOf(e)) {
        if e in es[1..] && BytesLe(first, t) { BytesLeTransitive(first, t, AtOf(e)); }
      }
      var e :| e in es[1..] && AtOf(e) == t;
      assert e in es && es[0] in es;
    }
  }

  /**
   The root of two source lists is the same whenever they hold the same pinned entries, in any order and among any
   unpinned ones.
   */
  lemma RootIgnoresOrderAndUnpinned(H: Hash, es: seq<Entry>, es': seq<Entry>)
    requires forall e :: IsPinned(e) ==> multiset(es)[e] == multiset(es')[e]
    ensures Root(H, PinnedItems(es)) == Root(H, PinnedItems(es'))
  {
    var a, b := Filter(IsPinned, es), Filter(IsPinned, es');
    forall e ensures multiset(a)[e] == multiset(b)[e] {
      FilterCount(IsPinned, es, e);
      FilterCount(IsPinned, es', e);
    }
    MapPermutes(ItemOf, a, b);
    RootOfPermutation(H, PinnedItems(es), PinnedItems(es'));
  }

  predicate CountOk(f: Field, n: nat)
  {
    f.Absent? || f == Int(n)
  }

  /** The declared root is the recomputed one; nothing is declared when nothing is pinned. */
  predicate RootOk(H: Hash, f: Field, es: seq<Entry>)
  {
    match Root(H, PinnedItems(es))
    case None => Missing(f)
    case Some(d) => f == Str(d)
  }

  predicate WellFormed(H: Hash, r: Rules, s: Set)
  {
    && s.Set? && s.version == Str(r.version) && s.sources.List?
    && var es := s.sources.entries;
    && es != [] && (forall e :: e in es ==> EntryOk(r, e))
    && SetRulesOk(H, s, es)
  }

  /** A version string this check does not know. */
  predicate Unsupported(r: Rules, s: Set)
  {
    s.Set? && s.version.Str? && s.version.s != r.version
  }

  predicate SetRulesOk(H: Hash, s: Set, es: seq<Entry>)
    requires s.Set? && es != []
  {
    var p := |PinnedItems(es)|;
    && CountOk(s.sourceCount, |es|) && CountOk(s.pinnedCount, p)
    && (s.fullyPinned.Absent? || s.fullyPinned == Bool(p == |es|))
    && (s.at.Absent? || s.at == Str(Least(es)))
    && NoRepeat(es)
    && RootOk(H, s.root, es)
  }

  // ---------------------------------------------------------------- which condition is reported

  datatype Member = All | Url | Snippet | Kind_ | At | Pinned_ | Resource

  predicate TypeFails(r: Rules, e: Entry, c: Condition)
    requires e.Source?
  {
    match c
    case AtNotCanonical => !r.Timestamp(e.at)
    case PinnedNotBoolean => !e.pinned.Bool?
    case UrlNotString => !e.url.Str?
    case ContainsNul => HasNul(e.url) || HasNul(e.snippet) || HasNul(e.kind) || HasNul(e.at)
    case _ => false
  }

  predicate DigestFails(r: Rules, e: Entry, c: Condition)
    requires e.Source?
  {
    match c
    case SnippetNotHex => !Missing(e.snippet) && !IsHex64(e.snippet)
    case ResourceNotHex => !Missing(e.resource) && !IsHex64(e.resource)
    case ResourceForFullResource => r.FullResource(e.kind) && !Missing(e.resource)
    case _ => false
  }

  /** The rules of the branch an entry takes; none without a readable pinned member. */
  predicate BranchFails(r: Rules, e: Entry, c: Condition)
    requires e.Source?
  {
    match c
    case SnippetAbsentWhenPinned => e.pinned == Bool(true) && Missing(e.snippet)
    case KindInvalidWhenPinned => e.pinned == Bool(true) && !r.Kind(e.kind)
    case SnippetMemberAbsent => e.pinned == Bool(false) && e.snippet.Absent?
    case SnippetPresentWhenUnpinned => e.pinned == Bool(false) && !Missing(e.snippet)
    case KindPresentWhenUnpinned => e.pinned == Bool(false) && !Missing(e.kind)
    case ReasonInvalid => e.pinned == Bool(false) && !r.Reason(e.unpinnedReason)
    case _ => false
  }

  predicate EntryFails(r: Rules, e: Entry, c: Condition)
  {
    if e.NotObject? then c == EntryNotObject else TypeFails(r, e, c) || DigestFails(r, e, c) || BranchFails(r, e, c)
  }

  /** The member failed its own check, so no rule that takes it as input is evaluated. */
  predicate MemberFails(r: Rules, e: Entry, m: Member)
  {
    if e.NotObject? then m == All
    else
      match m
      case All => false
      case Url => !e.url.Str?
      case At => !r.Timestamp(e.at)
      case Pinned_ => !e.pinned.Bool?
      case Snippet =>
        || !e.pinned.Bool?
        || (!Missing(e.snippet) && !IsHex64(e.snippet))
        || (e.pinned == Bool(false) && e.snippet.Absent?)
      case Kind_ => !e.pinned.Bool? || (e.pinned == Bool(true) && !r.Kind(e.kind))
      case Resource => !Missing(e.resource) && !IsHex64(e.resource)
  }

  lemma OkBreaksNothing(r: Rules, e: Entry, c: Condition, m: Member)
    requires EntryOk(r, e)
    ensures !EntryFails(r, e, c) && !MemberFails(r, e, m)
  {
  }

  lemma FormsFromNoFailure(r: Rules, e: Entry)
    requires e.Source? && forall c :: !EntryFails(r, e, c)
    ensures r.Timestamp(e.at) && e.pinned.Bool? && e.url.Str?
    ensures !HasNul(e.url) && !HasNul(e.snippet) && !HasNul(e.kind) && !HasNul(e.at)
    ensures (Missing(e.snippet) || IsHex64(e.snippet)) && (Missing(e.resource) || IsHex64(e.resource))
    ensures !(r.FullResource(e.kind) && !Missing(e.resource))
  {
    assert !EntryFails(r, e, AtNotCanonical) && !EntryFails(r, e, PinnedNotBoolean) && !EntryFails(r, e, UrlNotString);
    assert !EntryFails(r, e, ContainsNul) && !EntryFails(r, e, SnippetNotHex) && !EntryFails(r, e, ResourceNotHex);
    assert !EntryFails(r, e, ResourceForFullResource);
  }

  lemma BranchFromNoFailure(r: Rules, e: Entry)
    requires e.Source? && e.pinned.Bool? && forall c :: !EntryFails(r, e, c)
    ensures if e.pinned.b then !Missing(e.snippet) && r.Kind(e.kind)
            else e.snippet.Null? && Missing(e.kind) && r.Reason(e.unpinnedReason)
  {
    assert !EntryFails(r, e, SnippetAbsentWhenPinned) && !EntryFails(r, e, KindInvalidWhenPinned);
    assert !EntryFails(r, e, SnippetMemberAbsent) && !EntryFails(r, e, SnippetPresentWhenUnpinned);
    assert !EntryFails(r, e, KindPresentWhenUnpinned) && !EntryFails(r, e, ReasonInvalid);
  }

  /** An entry is well formed exactly when no condition is reported for it; then no member of it failed. */
  lemma EntryOkIsNoFailure(r: Rules, e: Entry)
    ensures EntryOk(r, e) <==> forall c :: !EntryFails(r, e, c)
    ensures EntryOk(r, e) ==> forall m :: !MemberFails(r, e, m)
  {
    if EntryOk(r, e) {
      forall c, m ensures !EntryFails(r, e, c) && !MemberFails(r, e, m) { OkBreaksNothing(r, e, c, m); }
    }
    if forall c :: !EntryFails(r, e, c) {
      assert !EntryFails(r, e, EntryNotObject);
      FormsFromNoFailure(r, e);
      BranchFromNoFailure(r, e);
    }
  }

  ghost predicate SomeEntryFails(r: Rules, es: seq<Entry>, c: Condition)
  {
    exists i :: 0 <= i < |es| && EntryFails(r, es[i], c)
  }

  /** Every entry's pinned member is readable. */
  predicate PinnedReadable(es: seq<Entry>)
  {
    forall i :: 0 <= i < |es| ==> es[i].Source? && es[i].pinned.Bool?
  }

  predicate TimesReadable(r: Rules, es: seq<Entry>)
  {
    forall i :: 0 <= i < |es| ==> es[i].Source? && r.Timestamp(es[i].at)
  }

  /** None of the members that make up a bound tuple failed. */
  predicate TupleReadable(r: Rules, e: Entry)
  {
    && !MemberFails(r, e, Url) && !MemberFails(r, e, Pinned_) && !MemberFails(r, e, Snippet)
    && !MemberFails(r, e, Kind_) && !MemberFails(r, e, All)
  }

  /** Two readable entries record one retrieval. */
  predicate RepeatSeen(r: Rules, es: seq<Entry>, i: nat, j: nat)
    requires i < |es| && j < |es|
  {
    TupleReadable(r, es[i]) && TupleReadable(r, es[j]) && RepeatAt(es, i, j)
  }

  /**
   An operand of the fully-pinned rule: the declared count, or the derived one when none is declared; None if it is no
   integer.
   */
  function Operand(f: Field, derived: Option<int>): Option<int>
  {
    if f.Absent? then derived else if f.Int? then Some(f.n) else None
  }

  predicate FlagFails(s: Set, n: nat, p: Option<int>)
    requires s.Set?
  {
    var sc, pc := Operand(s.sourceCount, Some(n)), Operand(s.pinnedCount, p);
    && sc.Some? && pc.Some? && !s.fullyPinned.Absent?
    && s.fullyPinned != Bool(pc.value == sc.value && sc.value > 0)
  }

  /** The set-level conditions; a rule whose inputs are not readable reports nothing. */
  ghost predicate SetFails(r: Rules, s: Set, es: seq<Entry>, c: Condition)
    requires s.Set? && es != []
  {
    || CountFails(s, |es|, |PinnedItems(es)|, PinnedReadable(es), c)
    || (TimesReadable(r, es) && TimeFails(r, s, es, c))
  }

  ghost predicate TimeFails(r: Rules, s: Set, es: seq<Entry>, c: Condition)
    requires s.Set? && es != []
  {
    || (c == AtNotLeast && !s.at.Absent? && s.at != Str(Least(es)))
    || (c == DuplicateTuple && SeenBefore(r, es, |es|))
  }

  /** The rules on counts, on the presence of a root and on the flag, given n sources of which p are pinned. */
  predicate CountFails(s: Set, n: nat, p: nat, readable: bool, c: Condition)
    requires s.Set?
  {
    match c
    case SourceCountMismatch => !CountOk(s.sourceCount, n)
    case PinnedCountMismatch => readable && !CountOk(s.pinnedCount, p)
    case RootWithNoPinned => readable && p == 0 && !Missing(s.root)
    case RootAbsentWithPinned => readable && p > 0 && Missing(s.root)
    case FullyPinnedMismatch => FlagFails(s, n, if readable then Some(p) else None)
    case _ => false
  }

  /** The conditions reported for a non-empty list of sources, but for the recomputation of the root. */
  ghost predicate ListFails(r: Rules, s: Set, es: seq<Entry>, c: Condition)
    requires s.Set? && es != []
  {
    SomeEntryFails(r, es, c) || SetFails(r, s, es, c)
  }

  /** Every condition a set is reported with: structural ones alone, then entry and set rules, then the root alone. */
  ghost predicate Fails(H: Hash, r: Rules, s: Set, c: Condition)
  {
    if s.NotSet? then c == SetNotObject
    else if !s.version.Str? then c == VersionNotString
    else if s.version.s != r.version then false
    else if s.sources.NotList? then c == SourcesNotArray
    else if s.sources.NoSources? || s.sources.entries == [] then c == NoSourcesNamed
    else
      var es := s.sources.entries;
      || ListFails(r, s, es, c)
      || (&& c == RootNotRecomputable
          && (forall d :: !ListFails(r, s, es, d))
          && !Missing(s.root) && !RootOk(H, s.root, es))
  }

  // ---------------------------------------------------------------- the imperative check

  method CheckTypes(r: Rules, e: Entry, before: set<Condition>) returns (bad: set<Member>, conds: set<Condition>)
    requires e.Source?
    ensures forall c :: c in conds <==> c in before || TypeFails(r, e, c)
    ensures forall m :: m in bad <==> m in {At, Pinned_, Url} && MemberFails(r, e, m)
  {
    bad, conds := {}, before;
    if !r.Timestamp(e.at) { conds, bad := conds + {AtNotCanonical}, bad + {At}; }
    if !e.pinned.Bool? { conds, bad := conds + {PinnedNotBoolean}, bad + {Pinned_}; }
    if !e.url.Str? { conds, bad := conds + {UrlNotString}, bad + {Url}; }
    if HasNul(e.url) || HasNul(e.snippet) || HasNul(e.kind) || HasNul(e.at) { conds := conds + {ContainsNul}; }
  }

  method CheckDigests(r: Rules, e: Entry, bads: set<Member>, before: set<Condition>)
    returns (bad: set<Member>, conds: set<Condition>)
    requires e.Source?
    ensures forall c :: c in conds <==> c in before || DigestFails(r, e, c)
    ensures forall m :: m in bad <==>
      m in bads || (m == Snippet && DigestFails(r, e, SnippetNotHex)) || (m == Resource && MemberFails(r, e, m))
  {
    bad, conds := bads, before;
    if !Missing(e.snippet) && !IsHex64(e.snippet) { conds, bad := conds + {SnippetNotHex}, bad + {Snippet}; }
    if !Missing(e.resource) && !IsHex64(e.resource) { conds, bad := conds + {ResourceNotHex}, bad + {Resource}; }
    if r.FullResource(e.kind) && !Missing(e.resource) { conds := conds + {ResourceForFullResource}; }
  }

  predicate BranchBad(r: Rules, e: Entry, m: Member)
    requires e.Source?
  {
    || (m == Snippet && (!e.pinned.Bool? || BranchFails(r, e, SnippetMemberAbsent)))
    || (m == Kind_ && MemberFails(r, e, m))
  }

  method CheckBranch(r: Rules, e: Entry, bads: set<Member>, before: set<Condition>)
    returns (bad: set<Member>, conds: set<Condition>)
    requires e.Source?
    ensures forall c :: c in conds <==> c in before || BranchFails(r, e, c)
    ensures forall m :: m in bad <==> m in bads || BranchBad(r, e, m)
  {
    bad, conds := bads, before;
    if !e.pinned.Bool? { return bad + {Snippet, Kind_}, conds; }
    if e.pinned.b {
      if Missing(e.snippet) { conds := conds + {SnippetAbsentWhenPinned}; }
      if !r.Kind(e.kind) { conds, bad := conds + {KindInvalidWhenPinned}, bad + {Kind_}; }
    } else {
      if e.snippet.Absent? {
        conds, bad := conds + {SnippetMemberAbsent}, bad + {Snippet};
      } else if !e.snippet.Null? {
        conds := conds + {SnippetPresentWhenUnpinned};
      }
      if !Missing(e.kind) { conds := conds + {KindPresentWhenUnpinned}; }
      if !r.Reason(e.unpinnedReason) { conds := conds + {ReasonInvalid}; }
    }
  }

  /** The per-entry rules, report-all: conditions found so far are carried in, bad members are returned. */
  method CheckEntry(r: Rules, e: Entry, before: set<Condition>) returns (bad: set<Member>, conds: set<Condition>)
    ensures forall c :: c in conds <==> c in before || EntryFails(r, e, c)
    ensures forall m :: m in bad <==> MemberFails(r, e, m)
  {
    if e.NotObject? { return {All}, before + {EntryNotObject}; }
    bad, conds := CheckTypes(r, e, before);
    bad, conds := CheckDigests(r, e, bad, conds);
    bad, conds := CheckBranch(r, e, bad, conds);
  }

  /** The bad members, entry by entry. */
  ghost predicate BadsOf(r: Rules, es: seq<Entry>, n: nat, bads: seq<set<Member>>)
    requires n <= |es|
  {
    |bads| == n && forall i :: 0 <= i < n ==> BadsAt(r, es[i], bads[i])
  }

  ghost predicate BadsAt(r: Rules, e: Entry, bad: set<Member>)
  {
    forall m :: m in bad <==> MemberFails(r, e, m)
  }

  method CheckEntries(r: Rules, es: seq<Entry>) returns (bads: seq<set<Member>>, conds: set<Condition>)
    ensures BadsOf(r, es, |es|, bads)
    ensures forall c :: c in conds <==> SomeEntryFails(r, es, c)
  {
    bads, conds := [], {};
    for i := 0 to |es|
      invariant BadsOf(r, es, i, bads)
      invariant forall c :: c in conds <==> exists j :: 0 <= j < i && EntryFails(r, es[j], c)
    {
      var bad;
      bad, conds := CheckEntry(r, es[i], conds);
      assert BadsAt(r, es[i], bad);
      bads := bads + [bad];
    }
  }

  datatype Derived = Derived(sourceCount: nat, pinnedCount: nat, fullyPinned: bool, root: Option<Digest>)

  datatype Validation = Validation(conds: set<Condition>, derived: Option<Derived>, unsupported: bool)

  predicate Clear(bad: set<Member>)
  {
    bad !! {Url, Pinned_, Snippet, Kind_, All}
  }

  lemma ClearIsReadable(r: Rules, e: Entry, bad: set<Member>)
    requires BadsAt(r, e, bad)
    ensures Clear(bad) <==> TupleReadable(r, e)
    ensures (Pinned_ !in bad && All !in bad) <==> e.Source? && e.pinned.Bool?
    ensures (At !in bad && All !in bad) <==> e.Source? && r.Timestamp(e.at)
  {
    assert Url in bad <==> MemberFails(r, e, Url);
    assert Pinned_ in bad <==> MemberFails(r, e, Pinned_);
    assert Snippet in bad <==> MemberFails(r, e, Snippet);
    assert Kind_ in bad <==> MemberFails(r, e, Kind_);
    assert All in bad <==> MemberFails(r, e, All);
    assert At in bad <==> MemberFails(r, e, At);
  }

  /** Pairs among the entries none of whose bound members is bad. */
  method FindRepeat(r: Rules, es: seq<Entry>, bads: seq<set<Member>>) returns (found: bool)
    requires BadsOf(r, es, |es|, bads)
    ensures found <==> SeenBefore(r, es, |es|)
  {
    found := false;
    for x := 0 to |es|
      invariant found <==> SeenBefore(r, es, x)
    {
      for y := x + 1 to |es|
        invariant found <==> SeenBefore(r, es, x) || SeenAt(r, es, x, y)
      {
        ClearIsReadable(r, es[x], bads[x]);
        ClearIsReadable(r, es[y], bads[y]);
        SeenNext(r, es, x, y);
        if Clear(bads[x]) && Clear(bads[y]) && RepeatAt(es, x, y) { found := true; }
      }
      SeenRow(r, es, x);
    }
  }

  ghost predicate SeenBefore(r: Rules, es: seq<Entry>, x: nat)
    requires x <= |es|
  {
    exists i, j :: 0 <= i < x && i < j < |es| && RepeatSeen(r, es, i, j)
  }

  ghost predicate SeenAt(r: Rules, es: seq<Entry>, x: nat, y: nat)
    requires x < |es| && y <= |es|
  {
    exists j :: x < j < y && RepeatSeen(r, es, x, j)
  }

  lemma SeenNext(r: Rules, es: seq<Entry>, x: nat, y: nat)
    requires x < y < |es|
    ensures SeenAt(r, es, x, y + 1) <==> SeenAt(r, es, x, y) || RepeatSeen(r, es, x, y)
  {
    if SeenAt(r, es, x, y) {
      var j :| x < j < y && RepeatSeen(r, es, x, j);
      assert x < j < y + 1;
    }
  }

  lemma SeenRow(r: Rules, es: seq<Entry>, x: nat)
    requires x < |es|
    ensures SeenBefore(r, es, x + 1) <==> SeenBefore(r, es, x) || SeenAt(r, es, x, |es|)
  {
    if SeenBefore(r, es, x) {
      var i, j :| 0 <= i < x && i < j < |es| && RepeatSeen(r, es, i, j);
      assert 0 <= i < x + 1 && RepeatSeen(r, es, i, j);
    }
    if SeenAt(r, es, x, |es|) {
      var j :| x < j < |es| && RepeatSeen(r, es, x, j);
      assert RepeatSeen(r, es, x, j);
    }
  }

  lemma ReadableFromBads(r: Rules, es: seq<Entry>, bads: seq<set<Member>>)
    requires BadsOf(r, es, |es|, bads)
    ensures (forall i :: 0 <= i < |es| ==> Pinned_ !in bads[i] && All !in bads[i]) <==> PinnedReadable(es)
    ensures (forall i :: 0 <= i < |es| ==> At !in bads[i] && All !in bads[i]) <==> TimesReadable(r, es)
  {
    forall i | 0 <= i < |es|
      ensures (Pinned_ !in bads[i] && All !in bads[i]) <==> es[i].Source? && es[i].pinned.Bool?
      ensures (At !in bads[i] && All !in bads[i]) <==> es[i].Source? && r.Timestamp(es[i].at)
    {
      ClearIsReadable(r, es[i], bads[i]);
    }
  }

  method CheckCounts(s: Set, n: nat, p: nat, pinnedOk: bool, before: set<Condition>) returns (conds: set<Condition>)
    requires s.Set?
    ensures forall c :: c in conds <==> c in before || CountFails(s, n, p, pinnedOk, c)
  {
    conds := before;
    if !CountOk(s.sourceCount, n) { conds := conds + {SourceCountMismatch}; }
    if pinnedOk {
      if !CountOk(s.pinnedCount, p) { conds := conds + {PinnedCountMismatch}; }
      if p == 0 && !Missing(s.root) { conds := conds + {RootWithNoPinned}; }
      if p > 0 && Missing(s.root) { conds := conds + {RootAbsentWithPinned}; }
    }
    if FlagFails(s, n, if pinnedOk then Some(p) else None) { conds := conds + {FullyPinnedMismatch}; }
  }

  /** The set-level rules, on the entries' bad members. Rules whose inputs are bad are not evaluated. */
  method CheckSet(r: Rules, s: Set, es: seq<Entry>, bads: seq<set<Member>>, before: set<Condition>)
    returns (conds: set<Condition>, p: nat)
    requires s.Set? && es != [] && BadsOf(r, es, |es|, bads)
    ensures p == |PinnedItems(es)|
    ensures forall c :: c in conds <==> c in before || SetFails(r, s, es, c)
  {
    conds := before;
    var n := |es|;
    p := |PinnedItems(es)|;
    ReadableFromBads(r, es, bads);
    var pinnedOk := forall i :: 0 <= i < |es| ==> Pinned_ !in bads[i] && All !in bads[i];
    conds := CheckCounts(s, n, p, pinnedOk, conds);
    var tsOk := forall i :: 0 <= i < |es| ==> At !in bads[i] && All !in bads[i];
    if tsOk {
      conds := CheckTimes(r, s, es, bads, conds);
    }
  }

  method CheckTimes(r: Rules, s: Set, es: seq<Entry>, bads: seq<set<Member>>, before: set<Condition>)
    returns (conds: set<Condition>)
    requires s.Set? && es != [] && BadsOf(r, es, |es|, bads)
    ensures forall c :: c in conds <==> c in before || TimeFails(r, s, es, c)
  {
    conds := before;
    if !s.at.Absent? && s.at != Str(Least(es)) { conds := conds + {AtNotLeast}; }
    var dup := FindRepeat(r, es, bads);
    if dup { conds := conds + {DuplicateTuple}; }
  }

  /** All set-level rules but the recomputation of the root. */
  predicate PresenceRulesOk(s: Set, es: seq<Entry>, p: nat)
    requires s.Set? && es != []
  {
    && CountOk(s.sourceCount, |es|) && CountOk(s.pinnedCount, p)
    && (p == 0 <==> Missing(s.root))
    && (s.fullyPinned.Absent? || s.fullyPinned == Bool(p == |es|))
    && (s.at.Absent? || s.at == Str(Least(es)))
    && NoRepeat(es)
  }

  /** Presence rules and a recomputed root that agrees with a declared one are all the set-level rules. */
  lemma PresenceAndRoot(H: Hash, s: Set, es: seq<Entry>)
    requires s.Set? && es != []
    ensures SetRulesOk(H, s, es) <==>
      PresenceRulesOk(s, es, |PinnedItems(es)|) && (Missing(s.root) || RootOk(H, s.root, es))
  {
  }

  ghost predicate AllOk(r: Rules, es: seq<Entry>)
  {
    forall e :: e in es ==> EntryOk(r, e)
  }

  lemma AllOkIsNoFailure(r: Rules, es: seq<Entry>)
    ensures AllOk(r, es) <==> forall c :: !SomeEntryFails(r, es, c)
    ensures AllOk(r, es) ==> PinnedReadable(es) && TimesReadable(r, es)
    ensures AllOk(r, es) ==> forall i :: 0 <= i < |es| ==> TupleReadable(r, es[i])
  {
    forall i | 0 <= i < |es|
      ensures EntryOk(r, es[i]) <==> forall c :: !EntryFails(r, es[i], c)
      ensures EntryOk(r, es[i]) ==> TupleReadable(r, es[i])
    {
      EntryOkIsNoFailure(r, es[i]);
    }
    if forall c :: !SomeEntryFails(r, es, c) {
      forall i | 0 <= i < |es| ensures EntryOk(r, es[i]) {
        forall c ensures !EntryFails(r, es[i], c) { assert !SomeEntryFails(r, es, c); }
      }
    }
  }

  /** Over well-formed entries the set rules are the presence rules. */
  lemma PresenceIsNoFailure(r: Rules, s: Set, es: seq<Entry>)
    requires s.Set? && es != [] && AllOk(r, es)
    ensures PresenceRulesOk(s, es, |PinnedItems(es)|) <==> forall c :: !SetFails(r, s, es, c)
  {
    AllOkIsNoFailure(r, es);
    RepeatIsSeen(r, es);
    CountsIsNoFailure(s, |es|, |PinnedItems(es)|);
    if forall c :: !SetFails(r, s, es, c) {
      assert !SetFails(r, s, es, AtNotLeast) && !SetFails(r, s, es, DuplicateTuple);
      forall c ensures !CountFails(s, |es|, |PinnedItems(es)|, true, c) { assert !SetFails(r, s, es, c); }
    }
  }

  lemma RepeatIsSeen(r: Rules, es: seq<Entry>)
    requires forall i :: 0 <= i < |es| ==> TupleReadable(r, es[i])
    ensures NoRepeat(es) <==> !SeenBefore(r, es, |es|)
  {
    assert forall i, j :: 0 <= i < j < |es| ==> (RepeatSeen(r, es, i, j) <==> RepeatAt(es, i, j));
  }

  lemma CountsIsNoFailure(s: Set, n: nat, p: nat)
    requires s.Set? && n > 0
    ensures CountOk(s.sourceCount, n) && CountOk(s.pinnedCount, p) && (p == 0 <==> Missing(s.root))
        && (s.fullyPinned.Absent? || s.fullyPinned == Bool(p == n))
      <==> forall c :: !CountFails(s, n, p, true, c)
  {
    if forall c :: !CountFails(s, n, p, true, c) {
      assert !CountFails(s, n, p, true, SourceCountMismatch) && !CountFails(s, n, p, true, PinnedCountMismatch);
      assert !CountFails(s, n, p, true, RootWithNoPinned) && !CountFails(s, n, p, true, RootAbsentWithPinned);
      assert !CountFails(s, n, p, true, FullyPinnedMismatch);
    }
  }

  lemma ListOkIsNoFailure(r: Rules, s: Set, es: seq<Entry>)
    requires s.Set? && es != []
    ensures AllOk(r, es) && PresenceRulesOk(s, es, |PinnedItems(es)|) <==> forall c :: !ListFails(r, s, es, c)
  {
    AllOkIsNoFailure(r, es);
    if AllOk(r, es) { PresenceIsNoFailure(r, s, es); }
    if forall c :: !ListFails(r, s, es, c) {
      forall c ensures !SomeEntryFails(r, es, c) && !SetFails(r, s, es, c) { assert !ListFails(r, s, es, c); }
    }
  }

  /** A set is well formed exactly when its version is supported and no condition is reported. */
  lemma WellFormedIsNoFailure(H: Hash, r: Rules, s: Set)
    ensures WellFormed(H, r, s) <==> !Unsupported(r, s) && forall c :: !Fails(H, r, s, c)
  {
    if s.Set? && s.version == Str(r.version) && s.sources.List? && s.sources.entries != [] {
      var es := s.sources.entries;
      PresenceAndRoot(H, s, es);
      ListOkIsNoFailure(r, s, es);
      if forall c :: !Fails(H, r, s, c) {
        forall c ensures !ListFails(r, s, es, c) { assert !Fails(H, r, s, c); }
        assert !Fails(H, r, s, RootNotRecomputable);
      }
    } else {
      assert !WellFormed(H, r, s);
      assert Unsupported(r, s) || Fails(H, r, s, SetNotObject) || Fails(H, r, s, VersionNotString)
          || Fails(H, r, s, NoSourcesNamed) || Fails(H, r, s, SourcesNotArray);
    }
  }

  /**
   Validation in evaluation order: exactly the conditions that hold are reported. No condition and a supported version
   is exactly well-formedness, and the derived values are then the recomputed ones.
   */
  method Validate(H: Hash, r: Rules, s: Set) returns (v: Validation)
    ensures forall c :: c in v.conds <==> Fails(H, r, s, c)
    ensures v.conds == {} && !v.unsupported <==> WellFormed(H, r, s)
    ensures v.unsupported <==> Unsupported(r, s)
    ensures v.unsupported ==> v.conds == {}
    ensures WellFormed(H, r, s) ==> v.derived == Some(DerivedFrom(H, s.sources.entries))
  {
    WellFormedIsNoFailure(H, r, s);
    if s.NotSet? { return Validation({SetNotObject}, None, false); }
    if !s.version.Str? { return Validation({VersionNotString}, None, false); }
    if s.version.s != r.version { return Validation({}, None, true); }
    if s.sources.NoSources? || s.sources == List([]) { return Validation({NoSourcesNamed}, None, false); }
    if s.sources.NotList? { return Validation({SourcesNotArray}, None, false); }
    v := ValidateList(H, r, s, s.sources.entries);
  }

  method ValidateList(H: Hash, r: Rules, s: Set, es: seq<Entry>) returns (v: Validation)
    requires s.Set? && s.version == Str(r.version) && s.sources == List(es) && es != []
    ensures forall c :: c in v.conds <==> Fails(H, r, s, c)
    ensures !v.unsupported && (v.conds == {} ==> v.derived == Some(DerivedFrom(H, es)))
  {
    var bads, conds := CheckEntries(r, es);
    var p;
    conds, p := CheckSet(r, s, es, bads, conds);
    if conds != {} {
      assert exists c :: c in conds && ListFails(r, s, es, c);
      return Validation(conds, None, false);
    }
    assert forall c :: !ListFails(r, s, es, c) by {
      forall c ensures !ListFails(r, s, es, c) { assert c !in conds; }
    }
    var want := ComputeRoot(H, PinnedItems(es));
    if !Missing(s.root) && (want.None? || s.root != Str(want.value)) {
      return Validation({RootNotRecomputable}, None, false);
    }
    v := Validation({}, Some(Derived(|es|, p, p == |es|, want)), false);
  }

  function DerivedFrom(H: Hash, es: seq<Entry>): Derived
  {
    var p := |PinnedItems(es)|;
    Derived(|es|, p, p == |es|, Root(H, PinnedItems(es)))
  }

  // ---------------------------------------------------------------- building

  function RootField(root: Option<Digest>): Field
  {
    if root.Some? then Str(root.value) else Null
  }

  /** The set an issuer forms from finished entries. */
  function Built(H: Hash, r: Rules, es: seq<Entry>): Set
    requires es != []
  {
    Set(Str(r.version), List(es), Int(|es|), Int(|Filter(IsPinned, es)|), RootField(Root(H, PinnedItems(es))),
        Bool(forall e :: e in es ==> IsPinned(e)), Str(Least(es)))
  }

  lemma {:induction false} FilterAll<T(!new)>(p: T -> bool, s: seq<T>)
    ensures |Filter(p, s)| <= |s| && (|Filter(p, s)| == |s| <==> forall x :: x in s ==> p(x))
  {
    if s != [] {
      FilterAll(p, s[1..]);
      assert forall x :: x in s <==> x == s[0] || x in s[1..];
    }
  }

  /** For every non-empty list of valid entries with no repeated retrieval the built set validates with no condition. */
  lemma BuiltIsWellFormed(H: Hash, r: Rules, es: seq<Entry>)
    requires es != [] && (forall e :: e in es ==> EntryOk(r, e)) && NoRepeat(es)
    ensures WellFormed(H, r, Built(H, r, es))
  {
    FilterAll(IsPinned, es);
  }

  /**
   Conversely a built set that validates came from valid entries with no repeated retrieval, so building refuses
   exactly the others.
   */
  method Build(H: Hash, r: Rules, es: seq<Entry>) returns (s: Option<Set>)
    requires es != []
    ensures s.Some? <==> (forall e :: e in es ==> EntryOk(r, e)) && NoRepeat(es)
    ensures s.Some? ==> s.value == Built(H, r, es) && WellFormed(H, r, s.value)
  {
    var built := Built(H, r, es);
    var v := Validate(H, r, built);
    if (forall e :: e in es ==> EntryOk(r, e)) && NoRepeat(es) {
      BuiltIsWellFormed(H, r, es);
    }
    if v.conds != {} { return None; }
    s := Some(built);
  }

  /**
   What a well-formed set declares about its sources is determined by them: no other root, count or timestamp
   validates.
   */
  lemma DeclarationsDetermined(H: Hash, r: Rules, s: Set, s': Set)
    requires WellFormed(H, r, s) && WellFormed(H, r, s') && s.sources == s'.sources
    ensures s.root == s'.root || (Missing(s.root) && Missing(s'.root))
    ensures s.sourceCount.Absent? || s'.sourceCount.Absent? || s.sourceCount == s'.sourceCount
    ensures s.pinnedCount.Absent? || s'.pinnedCount.Absent? || s.pinnedCount == s'.pinnedCount
    ensures s.fullyPinned.Absent? || s'.fullyPinned.Absent? || s.fullyPinned == s'.fullyPinned
    ensures s.at.Absent? || s'.at.Absent? || s.at == s'.at
  {
  }

  /** Over given sources, the built set is the only well-formed one that declares everything. */
  lemma BuiltIsUnique(H: Hash, r: Rules, s: Set)
    requires WellFormed(H, r, s) && !s.sourceCount.Absent? && !s.pinnedCount.Absent? && !s.root.Absent?
    requires !s.fullyPinned.Absent? && !s.at.Absent?
    ensures s == Built(H, r, s.sources.entries)
  {
    var es := s.sources.entries;
    BuiltIsWellFormed(H, r, es);
    DeclarationsDetermined(H, r, s, Built(H, r, es));
  }

  lemma PinnedNulFree(r: Rules, es: seq<Entry>)
    requires forall e :: e in es ==> EntryOk(r, e)
    ensures forall i :: i in PinnedItems(es) ==> NulFree(i)
  {
    var pinned, items := Filter(IsPinned, es), PinnedItems(es);
    forall i | i in items ensures NulFree(i) {
      var n :| 0 <= n < |items| && items[n] == i;
      assert pinned[n] in pinned;
    }
  }

  /**
   One root declared by two well-formed sets, of whatever sizes, binds one list of pinned items, or a collision is
   exhibited.
   */
  lemma SharedRootBindsItems(H: Hash, r: Rules, s: Set, s': Set)
    requires WellFormed(H, r, s) && WellFormed(H, r, s') && SameMember(s.root, s'.root)
    ensures var items, items' := PinnedItems(s.sources.entries), PinnedItems(s'.sources.entries);
      Canonical(items) == Canonical(items') || Collide(H, RootPreimages(H, items), RootPreimages(H, items'))
  {
    var items, items' := PinnedItems(s.sources.entries), PinnedItems(s'.sources.entries);
    PinnedNulFree(r, s.sources.entries);
    RootBindsItems(H, items, items');
  }

  // ---------------------------------------------------------------- resolution

  datatype Token = Resolved | Unknown | Halt

  datatype Report = ContentMatches | ContentDiffers | ContentNotHeld

  predicate Held(e: Entry, hashes: set<Bytes>)
  {
    IsPinned(e) && e.snippet.Str? && e.snippet.s in hashes
  }

  /** Every source is pinned and its digest is held. */
  predicate AllHeld(s: Set, hashes: set<Bytes>)
    requires s.Set? && s.sources.List?
  {
    forall e :: e in s.sources.entries ==> Held(e, hashes)
  }

  /**
   A pinned source matches when its digest is held, and differs when only other content of its url is; else nothing is
   held.
   */
  predicate ReportedAs(e: Entry, hashes: set<Bytes>, urls: set<Bytes>, item: Report)
  {
    && (item == ContentMatches <==> Held(e, hashes))
    && (item == ContentDiffers <==> IsPinned(e) && Text(e.url) in urls && !Held(e, hashes))
  }

  predicate Reported(es: seq<Entry>, hashes: set<Bytes>, urls: set<Bytes>, items: seq<Report>)
  {
    |items| == |es| && forall i :: 0 <= i < |es| ==> ReportedAs(es[i], hashes, urls, items[i])
  }

  /** The token of the evidence-set step: no set and an unknown version establish nothing, a malformed set halts. */
  ghost function TokenOf(H: Hash, r: Rules, payload: Option<Set>, hashes: set<Bytes>): Token
  {
    if payload.None? || Unsupported(r, payload.value) then Unknown
    else if !WellFormed(H, r, payload.value) then Halt
    else if AllHeld(payload.value, hashes) then Resolved
    else Unknown
  }

  predicate Buildable(r: Rules, es: seq<Entry>)
  {
    es != [] && (forall e :: e in es ==> EntryOk(r, e)) && NoRepeat(es)
  }

  lemma TamperedRoot(H: Hash, r: Rules, es: seq<Entry>, f: Field)
    requires Buildable(r, es)
    ensures var s := Built(H, r, es); WellFormed(H, r, s.(root := f)) <==> SameMember(f, s.root)
  {
    BuiltIsWellFormed(H, r, es);
  }

  lemma TamperedCounts(H: Hash, r: Rules, es: seq<Entry>, f: Field)
    requires Buildable(r, es)
    ensures var s := Built(H, r, es); WellFormed(H, r, s.(sourceCount := f)) <==> f.Absent? || f == s.sourceCount
    ensures var s := Built(H, r, es); WellFormed(H, r, s.(pinnedCount := f)) <==> f.Absent? || f == s.pinnedCount
  {
    BuiltIsWellFormed(H, r, es);
  }

  lemma TamperedFlagAndTime(H: Hash, r: Rules, es: seq<Entry>, f: Field)
    requires Buildable(r, es)
    ensures var s := Built(H, r, es); WellFormed(H, r, s.(fullyPinned := f)) <==> f.Absent? || f == s.fullyPinned
    ensures var s := Built(H, r, es); WellFormed(H, r, s.(at := f)) <==> f.Absent? || f == s.at
  {
    BuiltIsWellFormed(H, r, es);
  }

  /**
   Replacing the root, a count, the flag or the least time of a built set halts, whatever content is held, exactly when
   the new value is present and another one; for the root, null counts as not present.
   */
  lemma TamperedHalts(H: Hash, r: Rules, es: seq<Entry>, f: Field, hashes: set<Bytes>)
    requires Buildable(r, es)
    ensures var s := Built(H, r, es);
      && (TokenOf(H, r, Some(s.(root := f)), hashes) == Halt <==> !SameMember(f, s.root))
      && (TokenOf(H, r, Some(s.(sourceCount := f)), hashes) == Halt <==> !f.Absent? && f != s.sourceCount)
      && (TokenOf(H, r, Some(s.(pinnedCount := f)), hashes) == Halt <==> !f.Absent? && f != s.pinnedCount)
      && (TokenOf(H, r, Some(s.(fullyPinned := f)), hashes) == Halt <==> !f.Absent? && f != s.fullyPinned)
      && (TokenOf(H, r, Some(s.(at := f)), hashes) == Halt <==> !f.Absent? && f != s.at)
  {
    var s := Built(H, r, es);
    TamperedRoot(H, r, es, f);
    TamperedCounts(H, r, es, f);
    TamperedFlagAndTime(H, r, es, f);
    HaltIsMalformed(H, r, s.(root := f), hashes);
    HaltIsMalformed(H, r, s.(sourceCount := f), hashes);
    HaltIsMalformed(H, r, s.(pinnedCount := f), hashes);
    HaltIsMalformed(H, r, s.(fullyPinned := f), hashes);
    HaltIsMalformed(H, r, s.(at := f), hashes);
  }

  lemma HaltIsMalformed(H: Hash, r: Rules, s: Set, hashes: set<Bytes>)
    requires s.Set? && s.version == Str(r.version)
    ensures TokenOf(H, r, Some(s), hashes) == Halt <==> !WellFormed(H, r, s)
  {
  }

  /** The evidence-set step on a payload, against the content hashes and urls held. */
  method Resolve(H: Hash, r: Rules, payload: Option<Set>, hashes: set<Bytes>, urls: set<Bytes>)
    returns (token: Token, items: seq<Report>)
    ensures token == TokenOf(H, r, payload, hashes)
    ensures token == Resolved <==> payload.Some? && WellFormed(H, r, payload.value) && AllHeld(payload.value, hashes)
    ensures if payload.Some? && WellFormed(H, r, payload.value)
      then Reported(payload.value.sources.entries, hashes, urls, items) else items == []
  {
    if payload.None? { return Unknown, []; }
    var v := Validate(H, r, payload.value);
    if v.conds != {} { return Halt, []; }
    if v.unsupported { return Unknown, []; }
    var es := payload.value.sources.entries;
    var allMatch;
    items, allMatch := ReportItems(es, hashes, urls);
    FilterAll(IsPinned, es);
    token := if v.derived.value.fullyPinned && allMatch then Resolved else Unknown;
  }

  method ReportItems(es: seq<Entry>, hashes: set<Bytes>, urls: set<Bytes>) returns (items: seq<Report>, allMatch: bool)
    ensures Reported(es, hashes, urls, items)
    ensures allMatch <==> forall e :: e in es ==> Held(e, hashes)
  {
    items, allMatch := [], true;
    for i := 0 to |es|
      invariant |items| == i && forall j :: 0 <= j < i ==> ReportedAs(es[j], hashes, urls, items[j])
      invariant allMatch <==> forall j :: 0 <= j < i ==> Held(es[j], hashes)
    {
      var e := es[i];
      if Held(e, hashes) {
        items := items + [ContentMatches];
      } else if IsPinned(e) && Text(e.url) in urls {
        items, allMatch := items + [ContentDiffers], false;
      } else {
        items, allMatch := items + [ContentNotHeld], false;
      }
    }
  }

  // ---------------------------------------------------------------- what the rules amount to

  function HexChar(n: int): Byte
    requires 0 <= n < 16
  {
    if n < 10 then (48 + n) as Byte else (87 + n) as Byte
  }

  /** The lowercase hexadecimal text of some bytes. */
  function HexText(b: Bytes): (t: Bytes)
    ensures |t| == 2 * |b|
  {
    if b == [] then [] else [HexChar(b[0] as int / 16), HexChar(b[0] as int % 16)] + HexText(b[1..])
  }

  predicate IsHexChar(c: Byte)
  {
    48 <= c <= 57 || 97 <= c <= 102
  }

  function FromHexChar(c: Byte): int
  {
    if c <= 57 then c as int - 48 else c as int - 87
  }

  lemma {:induction false} HexTextIsHex(b: Bytes)
    ensures forall c :: c in HexText(b) ==> IsHexChar(c)
  {
    if b != [] { HexTextIsHex(b[1..]); }
  }

  lemma {:induction false} HexDecodes(t: Bytes, n: nat) returns (b: Bytes)
    requires |t| == 2 * n && forall c :: c in t ==> IsHexChar(c)
    ensures |b| == n && HexText(b) == t
  {
    if n == 0 {
      b := [];
    } else {
      assert forall c :: c in t[2..] ==> c in t;
      var rest := HexDecodes(t[2..], n - 1);
      assert t[0] in t && t[1] in t;
      var first := (16 * FromHexChar(t[0]) + FromHexChar(t[1])) as Byte;
      b := [first] + rest;
      assert b[1..] == rest && t == [t[0], t[1]] + t[2..];
    }
  }

  /** A digest member is well formed exactly when it is the lowercase hexadecimal text of 32 bytes. */
  lemma HexIsDigest(f: Field)
    ensures IsHex64(f) <==> exists d: Digest :: f == Str(HexText(d))
  {
    if IsHex64(f) {
      var d := HexDecodes(f.s, DIGEST_SIZE);
      var digest: Digest := d;
      assert f == Str(HexText(digest));
    }
    if d: Digest :| f == Str(HexText(d)) { HexTextIsHex(d); }
  }

  /** In a well-formed set, entries of one url and one time are pinned, to different contents or kinds. */
  lemma RetrievalsDiffer(H: Hash, r: Rules, s: Set, i: nat, j: nat)
    requires WellFormed(H, r, s) && i < j < |s.sources.entries|
    ensures var a, b := s.sources.entries[i], s.sources.entries[j];
      && a.Source? && b.Source?
      && (a.url == b.url && a.at == b.at ==>
            && a.pinned == Bool(true) && b.pinned == Bool(true)
            && (a.snippet != b.snippet || a.kind != b.kind))
  {
    var es := s.sources.entries;
    assert es[i] in es && es[j] in es;
    assert !RepeatAt(es, i, j);
  }

  /** The set resolves exactly when it is well formed, and every source is pinned to a digest that is held. */
  lemma ResolvedExactly(H: Hash, r: Rules, s: Set, hashes: set<Bytes>)
    ensures TokenOf(H, r, Some(s), hashes) == Resolved <==>
      && WellFormed(H, r, s)
      && forall e :: e in s.sources.entries ==> e.pinned == Bool(true) && e.snippet.Str? && e.snippet.s in hashes
  {
    if WellFormed(H, r, s) {
      forall e | e in s.sources.entries
        ensures Held(e, hashes) <==> e.pinned == Bool(true) && e.snippet.Str? && e.snippet.s in hashes
      {
        assert EntryOk(r, e);
      }
    }
  }

  /** The flag is judged by the declared counts where both are declared, right or wrong. */
  lemma FlagAgainstDeclared(r: Rules, s: Set, es: seq<Entry>, n: int, p: int)
    requires s.Set? && es != [] && s.sourceCount == Int(n) && s.pinnedCount == Int(p)
    ensures SetFails(r, s, es, FullyPinnedMismatch) <==>
      s.fullyPinned != Absent && s.fullyPinned != Bool(p == n && n > 0)
  {
  }

  /** One pinned source: the declared root is the digest of its four members, each after a NUL, after the prefix. */
  lemma OnePinnedRoot(H: Hash, r: Rules, s: Set, e: Entry)
    requires WellFormed(H, r, s) && s.sources.entries == [e] && e.pinned == Bool(true)
    ensures e.url.Str? && e.snippet.Str? && e.kind.Str? && e.at.Str?
    ensures s.root == Str(H(Ascii("ao-evidence-leaf-v2")
      + ([0] + e.url.s) + ([0] + e.snippet.s) + ([0] + e.kind.s) + ([0] + e.at.s)))
  {
    assert e in s.sources.entries;
    var i := Item(e.url.s, e.snippet.s, e.kind.s, e.at.s);
    assert Filter(IsPinned, [e]) == [e];
    assert PinnedItems([e]) == [i];
    SingleItem(H, i);
    LeafBytes(i);
  }

  /** The least time is one of the entries' times, and no entry's stands before it bytewise. */
  lemma LeastBytewise(es: seq<Entry>, e: Entry)
    requires es != [] && e in es
    ensures !BytesBefore(AtOf(e), Least(es))
  {
    LeastIsLeast(es);
    BytesLeExactly(AtOf(e), Least(es));
    BytesLeTotal(AtOf(e), Least(es));
    BeforeIrreflexive(Least(es));
  }
}
