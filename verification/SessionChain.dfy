/** The fail-closed check of a hash-chained history segment against heads held by others. */
module SessionChain {

  type Hex = string

  /** A log record as text; its members do not matter to the chain. */
  type Payload = string

  /** The content hash of a record and the head hash of a content hash and the head before it, as opaque functions. */
  datatype Hashes = Hashes(content: Payload -> Hex, link: (Hex, Hex) -> Hex) {

    function Content(r: Payload): Hex { content(r) }

    function Link(c: Hex, prev: Hex): Hex { link(c, prev) }
  }

  datatype Entry = Entry(entry: int, record: Payload, contentHash: Hex, prevHead: Hex, headHash: Hex)

  /** A head held by someone other than the log's writer. */
  datatype Head = Head(entry: int, headHash: Hex)

  datatype Verdict = Pass | Fail | CannotEstablish

  // ---------------------------------------------------------------- what the check decides

  predicate EntryOk(h: Hashes, e: Entry, prev: Hex)
  {
    h.Content(e.record) == e.contentHash && e.prevHead == prev && h.Link(e.contentHash, e.prevHead) == e.headHash
  }

  /** The head before position i. */
  function Before(entries: seq<Entry>, i: nat): Hex
    requires i < |entries|
  {
    if i == 0 then entries[0].prevHead else entries[i - 1].headHash
  }

  predicate LinkOk(h: Hashes, entries: seq<Entry>, i: nat)
    requires i < |entries|
  {
    EntryOk(h, entries[i], Before(entries, i))
  }

  predicate Numbered(entries: seq<Entry>)
  {
    forall i :: 0 <= i < |entries| ==> entries[i].entry == entries[0].entry + i
  }

  /** Numbers are consecutive, contents and heads recompute, every entry links to the one before it. */
  predicate Consistent(h: Hashes, entries: seq<Entry>)
  {
    Numbered(entries) && forall i :: 0 <= i < |entries| ==> LinkOk(h, entries, i)
  }

  predicate Inside(entries: seq<Entry>, x: Head)
    requires entries != []
  {
    entries[0].entry <= x.entry < entries[0].entry + |entries|
  }

  /** The log ends before the head, or shows another hash at its entry, or does not attach to it. */
  predicate Contradicts(entries: seq<Entry>, x: Head)
    requires entries != []
  {
    var first := entries[0].entry;
    || x.entry >= first + |entries|
    || (Inside(entries, x) && entries[x.entry - first].headHash != x.headHash)
    || (x.entry == first - 1 && x.headHash != entries[0].prevHead)
  }

  datatype Reason = NotConsecutive | Altered | Spliced | HeadWrong | Truncated | Equivocation | Detached | Incomparable

  /** The head is for an entry after the last presented one: the tail was removed. */
  predicate Later(entries: seq<Entry>, x: Head)
    requires entries != []
  {
    x.entry > entries[|entries| - 1].entry
  }

  /** A presented entry has the head's number and another hash. */
  predicate ShowsOther(entries: seq<Entry>, x: Head)
  {
    exists e :: e in entries && e.entry == x.entry && e.headHash != x.headHash
  }

  /** The head is for the entry just before the first presented one, which does not link to it. */
  predicate DoesNotAttach(entries: seq<Entry>, x: Head)
    requires entries != []
  {
    x.entry + 1 == entries[0].entry && entries[0].prevHead != x.headHash
  }

  lemma ContradictsExactly(entries: seq<Entry>, x: Head)
    requires entries != [] && Numbered(entries)
    ensures Contradicts(entries, x) <==> Later(entries, x) || ShowsOther(entries, x) || DoesNotAttach(entries, x)
    ensures Inside(entries, x) <==> exists e :: e in entries && e.entry == x.entry
  {
    var first := entries[0].entry;
    if Inside(entries, x) {
      assert entries[x.entry - first] in entries && entries[x.entry - first].entry == x.entry;
    }
    if e :| e in entries && e.entry == x.entry {
      var i :| 0 <= i < |entries| && entries[i] == e;
      assert Inside(entries, x);
    }
    forall e | e in entries && e.entry == x.entry ensures Inside(entries, x) && e == entries[x.entry - first] {
      var i :| 0 <= i < |entries| && entries[i] == e;
    }
  }

  /**
   The verdict, from the entries and heads alone: FAIL exactly for entries that do not chain, or a head that is later
   than the last entry, differs from the entry of its number, or is not the one the first entry attaches to; PASS
   exactly when it does not FAIL and some head is for a presented entry.
   */
  method Check(h: Hashes, entries: seq<Entry>, heads: seq<Head>) returns (v: Verdict)
    ensures entries == [] ==> v == CannotEstablish
    ensures entries != [] ==> (v == Fail <==> !Consistent(h, entries) || exists x ::
      x in heads && (Later(entries, x) || ShowsOther(entries, x) || DoesNotAttach(entries, x)))
    ensures entries != [] ==> (v == Pass <==>
      v != Fail && exists x :: x in heads && exists e :: e in entries && e.entry == x.entry)
  {
    if entries == [] { return CannotEstablish; }
    var why := WalkEntries(h, entries);
    if why != [] { return Fail; }
    var byEntry := HeadsByEntry(entries);
    v := CompareHeads(entries, heads, byEntry);
    forall x
      ensures Contradicts(entries, x) <==> Later(entries, x) || ShowsOther(entries, x) || DoesNotAttach(entries, x)
      ensures Inside(entries, x) <==> exists e :: e in entries && e.entry == x.entry
    {
      ContradictsExactly(entries, x);
    }
  }

  /** One pass over the entries, collecting a reason for every rule an entry breaks. */
  method WalkEntries(h: Hashes, entries: seq<Entry>) returns (why: seq<Reason>)
    requires entries != []
    ensures why == [] <==> Consistent(h, entries)
  {
    why := [];
    var prev := entries[0].prevHead;
    for i := 0 to |entries|
      invariant i < |entries| ==> prev == Before(entries, i)
      invariant why == [] <==> forall j :: 0 <= j < i ==> LinkOk(h, entries, j) && Follows(entries, j)
    {
      var e := entries[i];
      ghost var clean := why == [];
      if i > 0 && e.entry != entries[i - 1].entry + 1 { why := why + [NotConsecutive]; }
      if h.Content(e.record) != e.contentHash { why := why + [Altered]; }
      if e.prevHead != prev { why := why + [Spliced]; }
      if h.Link(e.contentHash, e.prevHead) != e.headHash { why := why + [HeadWrong]; }
      prev := e.headHash;
      assert why == [] <==> clean && LinkOk(h, entries, i) && Follows(entries, i);
    }
    if why == [] { Consecutive(entries, |entries|); }
  }

  predicate Follows(entries: seq<Entry>, j: nat)
    requires j < |entries|
  {
    j > 0 ==> entries[j].entry == entries[j - 1].entry + 1
  }

  lemma {:induction false} Consecutive(entries: seq<Entry>, n: nat)
    requires entries != [] && n <= |entries|
    requires forall j :: 0 <= j < |entries| ==> Follows(entries, j)
    ensures forall i :: 0 <= i < n ==> entries[i].entry == entries[0].entry + i
  {
    if n > 1 {
      Consecutive(entries, n - 1);
      assert Follows(entries, n - 1);
    }
  }

  ghost predicate IsHeadMap(entries: seq<Entry>, n: nat, m: map<int, Hex>)
    requires n <= |entries| && entries != []
  {
    forall k ::
      && (k in m <==> entries[0].entry <= k < entries[0].entry + n)
      && (k in m ==> m[k] == entries[k - entries[0].entry].headHash)
  }

  method HeadsByEntry(entries: seq<Entry>) returns (m: map<int, Hex>)
    requires entries != [] && Numbered(entries)
    ensures IsHeadMap(entries, |entries|, m)
  {
    m := map[];
    for i := 0 to |entries|
      invariant IsHeadMap(entries, i, m)
    {
      m := m[entries[i].entry := entries[i].headHash];
    }
  }

  /** Compares each external head with the segment. */
  method CompareHeads(entries: seq<Entry>, heads: seq<Head>, byEntry: map<int, Hex>) returns (v: Verdict)
    requires entries != [] && IsHeadMap(entries, |entries|, byEntry)
    requires Numbered(entries)
    ensures v == Fail <==> exists x :: x in heads && Contradicts(entries, x)
    ensures v == Pass <==> v != Fail && exists x :: x in heads && Inside(entries, x)
  {
    var first, last := entries[0].entry, entries[|entries| - 1].entry;
    var why: seq<Reason> := [];
    var lowerAnchored, fatal, comparable := false, false, false;
    for i := 0 to |heads|
      invariant fatal <==> exists j :: 0 <= j < i && Contradicts(entries, heads[j])
      invariant comparable <==> exists j :: 0 <= j < i && Inside(entries, heads[j])
    {
      var x := heads[i];
      assert Inside(entries, x) <==> x.entry in byEntry;
      if x.entry > last {
        why, fatal := why + [Truncated], true;
      } else if x.entry in byEntry && byEntry[x.entry] != x.headHash {
        why, fatal := why + [Equivocation], true;
      } else if x.entry == first - 1 {
        if x.headHash == entries[0].prevHead {
          lowerAnchored := true;
        } else {
          why, fatal := why + [Detached], true;
        }
      } else if x.entry !in byEntry {
        why := why + [Incomparable];
      }
      comparable := comparable || x.entry in byEntry;
    }
    v := if fatal then Fail else if comparable then Pass else CannotEstablish;
  }

  // ---------------------------------------------------------------- the genuine ledger

  /** An append-only ledger: its records from entry number base on, and the head before them. */
  datatype Ledger = Ledger(base: int, genesis: Hex, records: seq<Payload>)

  /** The ledger's head after its first n records. */
  function LedgerHead(h: Hashes, l: Ledger, n: nat): Hex
    requires n <= |l.records|
  {
    if n == 0 then l.genesis else h.Link(h.Content(l.records[n - 1]), LedgerHead(h, l, n - 1))
  }

  predicate Has(l: Ledger, entry: int)
  {
    l.base <= entry < l.base + |l.records|
  }

  /** The head the ledger had after that entry. */
  predicate Genuine(h: Hashes, l: Ledger, x: Head)
  {
    Has(l, x.entry) && x.headHash == LedgerHead(h, l, x.entry - l.base + 1)
  }

  // ---------------------------------------------------------------- soundness

  /** If the ledger has an entry of this number, its record is the presented one. */
  predicate Matches(l: Ledger, e: Entry)
  {
    Has(l, e.entry) ==> e.record == l.records[e.entry - l.base]
  }

  /**
   The presented entry and the ledger's of the same number: different inputs with the same content hash or the same
   head hash.
   */
  predicate Collides(h: Hashes, l: Ledger, e: Entry)
  {
    && Has(l, e.entry)
    && var i := e.entry - l.base;
      var c, p := h.Content(l.records[i]), LedgerHead(h, l, i);
      || (e.record != l.records[i] && h.Content(e.record) == c)
      || ((e.contentHash, e.prevHead) != (c, p) && h.Link(e.contentHash, e.prevHead) == h.Link(c, p))
  }

  /** Entry k of the segment and all entries below it match the ledger, or one of them collides. */
  ghost predicate AgreesUpTo(h: Hashes, l: Ledger, entries: seq<Entry>, k: int)
    requires k < |entries|
  {
    (forall i :: 0 <= i <= k ==> Matches(l, entries[i])) || (exists i :: 0 <= i <= k && Collides(h, l, entries[i]))
  }

  /** One step down the chain: a genuine head gives the ledger's record and the genuine head before it. */
  lemma StepDown(h: Hashes, l: Ledger, e: Entry, prev: Hex)
    requires EntryOk(h, e, prev) && Has(l, e.entry) && e.headHash == LedgerHead(h, l, e.entry - l.base + 1)
    ensures Collides(h, l, e) || (Matches(l, e) && prev == LedgerHead(h, l, e.entry - l.base))
  {
  }

  lemma {:induction false} BelowBase(h: Hashes, l: Ledger, entries: seq<Entry>, k: nat)
    requires k < |entries| && entries[k].entry == l.base
    requires Numbered(entries)
    ensures forall i :: 0 <= i < k ==> Matches(l, entries[i])
  {
    forall i | 0 <= i < k ensures Matches(l, entries[i]) {
      assert entries[i].entry < entries[k].entry;
    }
  }

  lemma {:induction false} ChainAgrees(h: Hashes, l: Ledger, entries: seq<Entry>, k: nat)
    requires k < |entries| && Consistent(h, entries) && Has(l, entries[k].entry)
    requires entries[k].headHash == LedgerHead(h, l, entries[k].entry - l.base + 1)
    ensures AgreesUpTo(h, l, entries, k)
  {
    assert LinkOk(h, entries, k);
    StepDown(h, l, entries[k], Before(entries, k));
    if !Collides(h, l, entries[k]) && k > 0 {
      if entries[k].entry == l.base {
        BelowBase(h, l, entries, k);
      } else {
        assert entries[k - 1].entry == entries[k].entry - 1;
        ChainAgrees(h, l, entries, k - 1);
      }
      ExtendAgreement(h, l, entries, k);
    }
  }

  lemma ExtendAgreement(h: Hashes, l: Ledger, entries: seq<Entry>, k: nat)
    requires 0 < k < |entries| && AgreesUpTo(h, l, entries, k - 1) && Matches(l, entries[k])
    ensures AgreesUpTo(h, l, entries, k)
  {
  }

  /**
   PASS with heads of one genuine ledger: on every entry number the segment shares with the ledger, up to the
   newest comparable head, the presented record is the ledger's, or a collision is exhibited at such an entry.
   */
  lemma PassAgrees(h: Hashes, l: Ledger, entries: seq<Entry>, heads: seq<Head>, x: Head)
    requires entries != [] && Consistent(h, entries)
    requires forall y :: y in heads ==> Genuine(h, l, y) && !Contradicts(entries, y)
    requires x in heads && Inside(entries, x)
    ensures AgreesUpTo(h, l, entries, x.entry - entries[0].entry)
  {
    var k := x.entry - entries[0].entry;
    assert entries[k].entry == x.entry && !Contradicts(entries, x);
    ChainAgrees(h, l, entries, k);
  }

  // ---------------------------------------------------------------- completeness

  /** The ledger's own entries from index lo up to index hi. */
  function Slice(h: Hashes, l: Ledger, lo: nat, hi: nat): (r: seq<Entry>)
    requires lo <= hi <= |l.records|
    ensures |r| == hi - lo
  {
    seq(hi - lo, i requires 0 <= i < hi - lo =>
      Entry(l.base + lo + i, l.records[lo + i], h.Content(l.records[lo + i]),
            LedgerHead(h, l, lo + i), LedgerHead(h, l, lo + i + 1)))
  }

  lemma SliceConsistent(h: Hashes, l: Ledger, lo: nat, hi: nat)
    requires lo < hi <= |l.records|
    ensures Consistent(h, Slice(h, l, lo, hi))
  {
    var es := Slice(h, l, lo, hi);
    forall i | 0 <= i < |es| ensures LinkOk(h, es, i) {
      assert i > 0 ==> es[i - 1].headHash == LedgerHead(h, l, lo + i);
      assert LedgerHead(h, l, lo + i + 1) == h.Link(h.Content(l.records[lo + i]), LedgerHead(h, l, lo + i));
    }
  }

  /** A contiguous slice of the ledger is not contradicted by any genuine head that is not later than its end. */
  lemma SliceNotContradicted(h: Hashes, l: Ledger, lo: nat, hi: nat, x: Head)
    requires lo < hi <= |l.records| && Genuine(h, l, x) && x.entry < l.base + hi
    ensures !Contradicts(Slice(h, l, lo, hi), x)
  {
    var es := Slice(h, l, lo, hi);
    assert es[0].entry == l.base + lo && es[0].prevHead == LedgerHead(h, l, lo);
  }

  /**
   A contiguous slice of the ledger is contradicted by a genuine head exactly when that head is later than its end.
   */
  lemma SliceContradictedExactly(h: Hashes, l: Ledger, lo: nat, hi: nat, x: Head)
    requires lo < hi <= |l.records| && Genuine(h, l, x)
    ensures Contradicts(Slice(h, l, lo, hi), x) <==> x.entry >= l.base + hi
  {
    if x.entry < l.base + hi { SliceNotContradicted(h, l, lo, hi, x); }
  }

  /**
   Checking a ledger slice against genuine heads fails exactly when some head is for an entry after the slice's end,
   which shows that the tail is missing, and otherwise passes exactly when a head falls inside it.
   */
  method CheckGenuineSlice(h: Hashes, l: Ledger, lo: nat, hi: nat, heads: seq<Head>) returns (v: Verdict)
    requires lo < hi <= |l.records|
    requires forall x :: x in heads ==> Genuine(h, l, x)
    ensures v == Fail <==> exists x :: x in heads && l.base + hi <= x.entry
    ensures v == Pass <==> v != Fail && exists x :: x in heads && l.base + lo <= x.entry
  {
    var es := Slice(h, l, lo, hi);
    SliceConsistent(h, l, lo, hi);
    forall x | x in heads
      ensures l.base + hi <= x.entry <==> Later(es, x) || ShowsOther(es, x) || DoesNotAttach(es, x)
      ensures l.base + lo <= x.entry < l.base + hi <==> exists e :: e in es && e.entry == x.entry
    {
      SliceContradictedExactly(h, l, lo, hi, x);
      ContradictsExactly(es, x);
    }
    v := Check(h, es, heads);
  }

  /** Whatever heads are held, one for an entry after the end of a slice makes the check of that slice fail. */
  method CheckTruncated(h: Hashes, l: Ledger, lo: nat, hi: nat, heads: seq<Head>, ghost x: Head) returns (v: Verdict)
    requires lo < hi <= |l.records| && x in heads && x.entry >= l.base + hi
    ensures v == Fail
  {
    var es := Slice(h, l, lo, hi);
    assert es[|es| - 1].entry == l.base + hi - 1;
    assert Later(es, x);
    v := Check(h, es, heads);
  }

  /**
   A verdict of PASS on any segment, with heads of one genuine ledger, means that no head is later than its end, that it
   attaches to the head just before it, and that it shares the ledger's records up to every head inside.
   */
  method CheckAgainstLedger(h: Hashes, l: Ledger, entries: seq<Entry>, heads: seq<Head>) returns (v: Verdict)
    requires forall x :: x in heads ==> Genuine(h, l, x)
    ensures v == Pass ==> entries != [] && (exists x :: x in heads && Inside(entries, x))
    ensures v == Pass ==> forall x :: x in heads ==> x.entry <= entries[|entries| - 1].entry
    ensures v == Pass ==>
      forall x :: x in heads && x.entry == entries[0].entry - 1 ==> x.headHash == entries[0].prevHead
    ensures v == Pass ==>
      forall x :: x in heads && Inside(entries, x) ==> AgreesUpTo(h, l, entries, x.entry - entries[0].entry)
  {
    v := Check(h, entries, heads);
    if v == Pass {
      forall x
        ensures Contradicts(entries, x) <==> Later(entries, x) || ShowsOther(entries, x) || DoesNotAttach(entries, x)
        ensures Inside(entries, x) <==> exists e :: e in entries && e.entry == x.entry
      {
        ContradictsExactly(entries, x);
      }
      forall x | x in heads && Inside(entries, x) ensures AgreesUpTo(h, l, entries, x.entry - entries[0].entry) {
        PassAgrees(h, l, entries, heads, x);
      }
    }
  }
}
