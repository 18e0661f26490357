/** The subject-bound poisoning-scan verdict: what a NO_FINDING says about the documents a decision consumed. */
module ScanBinding {
  import opened Basics
  import opened Octets
  import opened Ordering
  import opened Merkle
  import opened Inclusion

  /** A document; id and content are UTF-8 bytes. */
  datatype Doc = Doc(id: Bytes, content: Bytes)

  function LeafPre(d: Doc): Bytes
  {
    [0] + d.id + [0] + d.content
  }

  function Leaf(H: Hash, d: Doc): Digest
  {
    H(LeafPre(d))
  }

  /** The leaf hashes in sorted order, the list every root and proof index refers to. */
  function SortedLeaves(H: Hash, docs: seq<Doc>): seq<Digest>
  {
    Sort(BytesLe, Map(d => Leaf(H, d), docs))
  }

  /** The order of the documents that the sorted leaves stand in. */
  function LeafOrder(H: Hash, docs: seq<Doc>): seq<Doc>
  {
    Sort(ByKey(BytesLe, d => Leaf(H, d)), docs)
  }

  function Preimages(H: Hash, docs: seq<Doc>): seq<Bytes>
  {
    Map(LeafPre, LeafOrder(H, docs))
  }

  lemma SortedLeavesAreDigests(H: Hash, docs: seq<Doc>)
    ensures |SortedLeaves(H, docs)| == |docs| && SortedLeaves(H, docs) == Digests(H, Preimages(H, docs))
  {
    SortPermutes(BytesLe, Map(d => Leaf(H, d), docs));
    SortByKey(BytesLe, (d: Doc) => Leaf(H, d), docs);
    assert Map(d => Leaf(H, d), LeafOrder(H, docs)) == Digests(H, Preimages(H, docs));
  }

  lemma PreimageMembers(H: Hash, docs: seq<Doc>, x: Bytes) returns (d: Doc)
    requires x in Preimages(H, docs)
    ensures d in docs && LeafPre(d) == x
  {
    var i :| 0 <= i < |Preimages(H, docs)| && Preimages(H, docs)[i] == x;
    d := LeafOrder(H, docs)[i];
    SortMembers(ByKey(BytesLe, d => Leaf(H, d)), docs, d);
  }

  lemma LeafIsNotNode(H: Hash, d: Doc)
    ensures !(Rfc9162(H).tag <= LeafPre(d))
  {
    assert LeafPre(d)[0] == 0 && Rfc9162(H).tag[0] == 1;
  }

  lemma PreimagesLeafTyped(H: Hash, docs: seq<Doc>)
    ensures LeafTyped(Rfc9162(H), Preimages(H, docs))
  {
    forall x | x in Preimages(H, docs) ensures !(Rfc9162(H).tag <= x) {
      var d := PreimageMembers(H, docs, x);
      LeafIsNotNode(H, d);
    }
  }

  function Root(H: Hash, docs: seq<Doc>): Digest
    requires |docs| > 0
  {
    SortedLeavesAreDigests(H, docs);
    Mth(Rfc9162(H), SortedLeaves(H, docs))
  }

  // ---------------------------------------------------------------- the verdict

  /** The signed scan claim. Digest strings are represented by the bytes they encode. */
  datatype Scan = Scan(clean: bool, subject: Option<Bytes>, recordwise: bool, scanner: string)

  datatype Proof = Proof(leaf: Bytes, index: int, size: int, path: seq<Bytes>)

  datatype Decision = Decision(k: int, retrieved: seq<Doc>, effective: Bytes, corpusRoot: Bytes, proofs: seq<Proof>)

  datatype Verdict = NoFinding | CannotEstablish | Contradicted | NotValid

  datatype Grade = Ungraded | AuthenticatedReport | Reproduced

  /** The published deterministic scanner: its version string, its pattern, and how text is lowercased. */
  datatype Scanner = Scanner(version: string, pattern: Bytes, fold: Bytes -> Bytes) {

    /** The lowercased content contains the pattern; the id is not looked at. */
    predicate Finds(d: Doc) { Occurs(pattern, fold(d.content)) }
  }

  predicate OccursAt(p: Bytes, s: Bytes, i: nat)
  {
    i + |p| <= |s| && s[i..i + |p|] == p
  }

  predicate Occurs(p: Bytes, s: Bytes)
  {
    exists i | 0 <= i <= |s| :: OccursAt(p, s, i)
  }

  predicate Proved(H: Hash, dec: Decision, leaf: Bytes, subject: Bytes)
  {
    exists i :: 0 <= i < |dec.proofs| && var p := dec.proofs[i];
      p.leaf == leaf && Accepts(Rfc9162(H), p.leaf, p.index, p.size, p.path, subject)
  }

  function SubjectBound(H: Hash, toy: Scanner, corpus: seq<Doc>, scan: Scan, dec: Decision): (Verdict, Grade)
    requires |corpus| > 0
  {
    if !scan.clean then (NotValid, Ungraded)
    else if scan.subject == None || dec.k != 1 || |dec.retrieved| != 1 then (CannotEstablish, Ungraded)
    else if scan.subject.value == dec.effective then Graded(toy, scan, dec.retrieved)
    else if scan.subject.value == Root(H, corpus) && Root(H, corpus) == dec.corpusRoot then
      if !scan.recordwise || exists d :: d in dec.retrieved && !Proved(H, dec, Leaf(H, d), scan.subject.value)
      then (CannotEstablish, Ungraded)
      else Graded(toy, scan, corpus)
    else (CannotEstablish, Ungraded)
  }

  function Graded(toy: Scanner, scan: Scan, subject: seq<Doc>): (Verdict, Grade)
  {
    if scan.scanner == toy.version
    then (if exists d :: d in subject && toy.Finds(d) then Contradicted else NoFinding, Reproduced)
    else (NoFinding, AuthenticatedReport)
  }

  // ---------------------------------------------------------------- soundness

  /** Everything hashed in a proof that is offered for the document. */
  ghost function ProofPre(H: Hash, d: Doc, p: Proof): set<Bytes>
  {
    {LeafPre(d)} + ClimbPre(Rfc9162(H), Leaf(H, d), p.index, p.size - 1, p.path)
  }

  ghost function CorpusPre(H: Hash, corpus: seq<Doc>): set<Bytes>
    requires |corpus| > 0
  {
    SortedLeavesAreDigests(H, corpus);
    AllPre(Rfc9162(H), Preimages(H, corpus))
  }

  lemma AcceptedIsInCorpus(H: Hash, corpus: seq<Doc>, p: Proof, d: Doc)
    requires |corpus| > 0 && Accepts(Rfc9162(H), Leaf(H, d), p.index, p.size, p.path, Root(H, corpus))
    ensures (exists c :: c in corpus && LeafPre(c) == LeafPre(d))
         || Collide(H, CorpusPre(H, corpus), ProofPre(H, d, p))
  {
    SortedLeavesAreDigests(H, corpus);
    PreimagesLeafTyped(H, corpus);
    LeafIsNotNode(H, d);
    MembershipSound(Rfc9162(H), Preimages(H, corpus), LeafPre(d), p.index, p.size, p.path);
    if LeafPre(d) in Preimages(H, corpus) {
      var c := PreimageMembers(H, corpus, LeafPre(d));
    }
  }

  lemma ProvedIsInCorpus(H: Hash, corpus: seq<Doc>, dec: Decision, d: Doc)
    requires |corpus| > 0 && Proved(H, dec, Leaf(H, d), Root(H, corpus))
    ensures (exists c :: c in corpus && LeafPre(c) == LeafPre(d))
         || (exists i :: 0 <= i < |dec.proofs| && Collide(H, CorpusPre(H, corpus), ProofPre(H, d, dec.proofs[i])))
  {
    var i :| 0 <= i < |dec.proofs| && var p := dec.proofs[i];
      p.leaf == Leaf(H, d) && Accepts(Rfc9162(H), p.leaf, p.index, p.size, p.path, Root(H, corpus));
    AcceptedIsInCorpus(H, corpus, dec.proofs[i], d);
  }

  predicate NulFree(d: Doc)
  {
    0 !in d.id && 0 !in d.content
  }

  lemma NulCount(d: Doc)
    ensures NulFree(d) <==> multiset(LeafPre(d))[0] == 2
  {
    assert multiset(LeafPre(d)) == multiset(d.id) + multiset(d.content) + multiset([0, 0]);
    assert forall m: Bytes :: 0 in m <==> multiset(m)[0] > 0;
  }

  /** A leaf determines its document when that document holds no NUL, and among documents whose ids hold none. */
  lemma LeafPreInjective(c: Doc, d: Doc)
    requires LeafPre(c) == LeafPre(d) && (NulFree(d) || (0 !in c.id && 0 !in d.id))
    ensures c == d
  {
    NulCount(c);
    NulCount(d);
    assert LeafPre(c)[1..] == c.id + [0] + c.content;
    assert LeafPre(d)[1..] == d.id + [0] + d.content;
    NulDelimits(c.id, c.content, d.id, d.content);
  }

  /** The document with the boundary between id and content moved to another NUL. */
  function Twin(d: Doc): Doc
    requires !NulFree(d)
  {
    if 0 in d.content then
      var n := FirstNul(d.content);
      Doc(d.id + [0] + d.content[..n], d.content[n + 1..])
    else
      var n := FirstNul(d.id);
      Doc(d.id[..n], d.id[n + 1..] + [0] + d.content)
  }

  /** A NUL inside a document moves the boundary between id and content without changing the leaf. */
  lemma NulMovesBoundary(d: Doc)
    requires !NulFree(d)
    ensures Twin(d) != d && LeafPre(Twin(d)) == LeafPre(d)
  {
    if 0 in d.content {
      var n := FirstNul(d.content);
      assert d.content == d.content[..n] + [0] + d.content[n + 1..];
      Regrouped(d.id, d.content[..n], d.content[n + 1..]);
    } else {
      var n := FirstNul(d.id);
      assert d.id == d.id[..n] + [0] + d.id[n + 1..];
      Regrouped(d.id[..n], d.id[n + 1..], d.content);
    }
  }

  lemma Regrouped(x: Bytes, y: Bytes, z: Bytes)
    ensures LeafPre(Doc(x + [0] + y, z)) == LeafPre(Doc(x, y + [0] + z)) && x + [0] + y != x
  {
    assert |x + [0] + y| > |x|;
  }

  /** Exactly the NUL-free documents are determined by their leaves. */
  lemma LeafDeterminesDoc(d: Doc)
    ensures (forall c :: LeafPre(c) == LeafPre(d) ==> c == d) <==> NulFree(d)
  {
    if NulFree(d) {
      forall c | LeafPre(c) == LeafPre(d) ensures c == d { LeafPreInjective(c, d); }
    } else {
      NulMovesBoundary(d);
    }
  }

  /** A NO_FINDING taken from the corpus root, for a decision that consumes d. */
  ghost predicate FromRoot(H: Hash, toy: Scanner, corpus: seq<Doc>, scan: Scan, dec: Decision, d: Doc)
  {
    && |corpus| > 0
    && SubjectBound(H, toy, corpus, scan, dec).0 == NoFinding
    && scan.subject != Some(dec.effective)
    && d in dec.retrieved
  }

  ghost predicate ProofsCollide(H: Hash, corpus: seq<Doc>, dec: Decision, d: Doc)
    requires |corpus| > 0
  {
    exists i :: 0 <= i < |dec.proofs| && Collide(H, CorpusPre(H, corpus), ProofPre(H, d, dec.proofs[i]))
  }

  /** The document was scanned, and a rerun scanner does not flag it. */
  ghost predicate Scanned(toy: Scanner, corpus: seq<Doc>, scan: Scan, d: Doc)
  {
    d in corpus && (scan.scanner == toy.version ==> !toy.Finds(d))
  }

  /** What a caller can look at beforehand: the consumed document holds no NUL, or no id does. */
  predicate Named(corpus: seq<Doc>, d: Doc)
  {
    NulFree(d) || (0 !in d.id && forall c :: c in corpus ==> 0 !in c.id)
  }

  /**
   A NO_FINDING taken from the corpus root: a scanned document that a rerun scanner does not flag has the leaf of the
   consumed one, and is the consumed one where it is named unambiguously; or a collision among the hashed byte strings
   is exhibited.
   */
  lemma NoFindingConsumesScanned(H: Hash, toy: Scanner, corpus: seq<Doc>, scan: Scan, dec: Decision, d: Doc)
    requires FromRoot(H, toy, corpus, scan, dec, d)
    ensures scan.clean && scan.recordwise && scan.subject == Some(Root(H, corpus))
    ensures (exists c :: LeafPre(c) == LeafPre(d) && Scanned(toy, corpus, scan, c)) || ProofsCollide(H, corpus, dec, d)
    ensures Named(corpus, d) ==> Scanned(toy, corpus, scan, d) || ProofsCollide(H, corpus, dec, d)
  {
    assert Proved(H, dec, Leaf(H, d), scan.subject.value);
    ProvedIsInCorpus(H, corpus, dec, d);
    if c :| c in corpus && LeafPre(c) == LeafPre(d) {
      assert Scanned(toy, corpus, scan, c);
      if Named(corpus, d) { LeafPreInjective(c, d); }
    }
  }

  /** The decision's two declared roots are those of the corpus and of what was retrieved. */
  ghost predicate HonestRoots(H: Hash, corpus: seq<Doc>, dec: Decision)
    requires |corpus| > 0
  {
    dec.corpusRoot == Root(H, corpus) && |dec.retrieved| > 0 && dec.effective == Root(H, dec.retrieved)
  }

  // ---------------------------------------------------------------- what the scanner lets through

  ghost predicate FoldsAt(fold: Bytes -> Bytes, x: Bytes, y: Bytes)
  {
    fold(x + [0] + y) == fold(x) + [0] + fold(y)
  }

  /** Lowercasing does not reach across a NUL, and leaves it in place. */
  ghost predicate Folds(fold: Bytes -> Bytes)
  {
    fold([]) == [] && forall x, y :: FoldsAt(fold, x, y)
  }

  /** A document with the leaf of one whose content holds no NUL has that content at the end of its own. */
  lemma ContentIsSuffix(c: Doc, d: Doc) returns (x: Bytes)
    requires LeafPre(c) == LeafPre(d) && 0 !in d.content
    ensures c.content == d.content || c.content == x + [0] + d.content
  {
    x := [];
    var p := LeafPre(d);
    var n, m := |c.content|, |d.content|;
    assert p[|p| - m..] == d.content && p[|p| - n..] == c.content;
    assert p[|p| - m - 1] == 0 && p[|p| - n - 1] == 0;
    NoNulAfter(p, m, n);
    if n > m {
      x := c.content[..n - m - 1];
      assert c.content[n - m - 1] == 0 && c.content[n - m..] == d.content;
    }
  }

  lemma NoNulAfter(p: Bytes, m: nat, n: nat)
    requires m < |p| && n < |p| && 0 !in p[|p| - m..] && p[|p| - n - 1] == 0
    ensures m <= n
  {
    forall i | |p| - m <= i < |p| ensures p[i] != 0 {
      assert p[|p| - m..][i - (|p| - m)] == p[i];
    }
  }

  lemma OccursLater(p: Bytes, x: Bytes, s: Bytes)
    requires Occurs(p, s)
    ensures Occurs(p, x + s)
  {
    var i: nat :| i <= |s| && OccursAt(p, s, i);
    assert (x + s)[|x| + i..|x| + i + |p|] == s[i..i + |p|];
    assert OccursAt(p, x + s, |x| + i);
  }

  /** A scanner that flags a document whose content holds no NUL flags every document with its leaf. */
  lemma TwinFlagged(toy: Scanner, c: Doc, d: Doc)
    requires Folds(toy.fold) && LeafPre(c) == LeafPre(d) && 0 !in d.content && toy.Finds(d)
    ensures toy.Finds(c)
  {
    var x := ContentIsSuffix(c, d);
    if c.content != d.content {
      assert FoldsAt(toy.fold, x, d.content);
      OccursLater(toy.pattern, toy.fold(x) + [0], toy.fold(d.content));
    }
  }

  /**
   No document that the rerun scanner flags, and whose content holds no NUL, is consumed under a reproduced
   NO_FINDING.
   */
  lemma FlaggedIsNotConsumed(H: Hash, toy: Scanner, corpus: seq<Doc>, scan: Scan, dec: Decision, d: Doc)
    requires FromRoot(H, toy, corpus, scan, dec, d) && scan.scanner == toy.version
    requires Folds(toy.fold) && 0 !in d.content
    ensures !toy.Finds(d) || ProofsCollide(H, corpus, dec, d)
  {
    NoFindingConsumesScanned(H, toy, corpus, scan, dec, d);
    if !ProofsCollide(H, corpus, dec, d) && toy.Finds(d) {
      var c :| LeafPre(c) == LeafPre(d) && Scanned(toy, corpus, scan, c);
      TwinFlagged(toy, c, d);
    }
  }

  // ---------------------------------------------------------------- what a NUL lets through

  const EMPTY: Doc := Doc([], [])

  /** A corpus without d that holds a document with its leaf. */
  function TwinCorpus(d: Doc): seq<Doc>
    requires !NulFree(d)
  {
    [Twin(d), EMPTY]
  }

  /** The hash does not collide on the few byte strings that a document with a NUL needs. */
  ghost predicate Apart(H: Hash, d: Doc)
  {
    !NulFree(d) ==> !Collide(H, CorpusPre(H, TwinCorpus(d)), CorpusPre(H, TwinCorpus(d)))
  }

  lemma SingleRoot(H: Hash, d: Doc)
    ensures Root(H, [d]) == Leaf(H, d)
  {
    SortedLeavesAreDigests(H, [d]);
    var i := LeafIndex(H, [d], d);
  }

  /** Two documents: one node, whose preimage starts with the node tag. */
  lemma PairRoot(H: Hash, c: Doc, e: Doc)
    ensures var ls := SortedLeaves(H, [c, e]);
      && |ls| == 2 && Root(H, [c, e]) == Rfc9162(H).Node(ls[0], ls[1])
      && CorpusPre(H, [c, e]) == {LeafPre(c), LeafPre(e), Rfc9162(H).NodePre(ls[0], ls[1])}
      && LevelPre(Rfc9162(H), ls) == {Rfc9162(H).NodePre(ls[0], ls[1])}
  {
    var s, ls, pre := Rfc9162(H), SortedLeaves(H, [c, e]), Preimages(H, [c, e]);
    SortedLeavesAreDigests(H, [c, e]);
    assert ls[..1] == [ls[0]] && ls[1..] == [ls[1]];
    assert Mth(s, ls[..1]) == ls[0] && Mth(s, ls[1..]) == ls[1];
    forall x ensures x in pre <==> x == LeafPre(c) || x == LeafPre(e) { PairPreimages(H, c, e, x); }
    assert TreePre(s, ls[..1]) == {} && TreePre(s, ls[1..]) == {};
    assert PairPre(s, ls) == {s.NodePre(ls[0], ls[1])} + PairPre(s, ls[2..]);
    assert |Level(s, ls)| == 1;
  }

  lemma PairPreimages(H: Hash, c: Doc, e: Doc, x: Bytes)
    ensures x in Preimages(H, [c, e]) <==> x == LeafPre(c) || x == LeafPre(e)
  {
    if x in Preimages(H, [c, e]) {
      var d := PreimageMembers(H, [c, e], x);
    }
    MemberPreimage(H, [c, e], c);
    MemberPreimage(H, [c, e], e);
  }

  lemma MemberPreimage(H: Hash, docs: seq<Doc>, d: Doc)
    requires d in docs
    ensures LeafPre(d) in Preimages(H, docs)
  {
    SortMembers(ByKey(BytesLe, d => Leaf(H, d)), docs, d);
    var i :| 0 <= i < |LeafOrder(H, docs)| && LeafOrder(H, docs)[i] == d;
    assert Preimages(H, docs)[i] == LeafPre(d);
  }

  /** Proofs name leaves: what is built for a document serves every document with its leaf. */
  lemma TwinProved(H: Hash, corpus: seq<Doc>, c: Doc, d: Doc) returns (index: nat)
    requires c in corpus && LeafPre(c) == LeafPre(d)
    ensures index < |SortedLeaves(H, corpus)| && SortedLeaves(H, corpus)[index] == Leaf(H, d)
    ensures |corpus| > 0 && Proved(H, HonestDecision(H, corpus, d, index), Leaf(H, d), Root(H, corpus))
  {
    index := LeafIndex(H, corpus, c);
    InclusionComplete(Rfc9162(H), SortedLeaves(H, corpus), index);
    var dec := HonestDecision(H, corpus, d, index);
    assert dec.proofs[0].leaf == Leaf(H, d);
  }

  lemma TwinRoots(H: Hash, d: Doc)
    requires !NulFree(d) && Apart(H, d)
    ensures Root(H, TwinCorpus(d)) != Root(H, [d])
  {
    NulMovesBoundary(d);
    PairRoot(H, Twin(d), EMPTY);
    SingleRoot(H, d);
    var ls := SortedLeaves(H, TwinCorpus(d));
    var n, all := Rfc9162(H).NodePre(ls[0], ls[1]), CorpusPre(H, TwinCorpus(d));
    assert n[0] == 1 && LeafPre(d)[0] == 0;
    EqualOrCollideUnless(H, n, LeafPre(d), all);
  }

  lemma EqualOrCollideUnless(H: Hash, x: Bytes, y: Bytes, all: set<Bytes>)
    requires x in all && y in all && x != y && !Collide(H, all, all)
    ensures H(x) != H(y)
  {
  }

  lemma TwinProofApart(H: Hash, d: Doc, index: nat)
    requires !NulFree(d) && Apart(H, d)
    requires index < |SortedLeaves(H, TwinCorpus(d))| && SortedLeaves(H, TwinCorpus(d))[index] == Leaf(H, d)
    ensures !ProofsCollide(H, TwinCorpus(d), HonestDecision(H, TwinCorpus(d), d, index), d)
  {
    var corpus := TwinCorpus(d);
    NulMovesBoundary(d);
    PairRoot(H, Twin(d), EMPTY);
    var ls, dec, all := SortedLeaves(H, corpus), HonestDecision(H, corpus, d, index), CorpusPre(H, corpus);
    HonestPre(Rfc9162(H), ls, index);
    assert ProofPre(H, d, dec.proofs[0]) <= all;
  }

  /**
   A document with a NUL is consumed under a NO_FINDING of a corpus that does not hold it, by a decision whose
   declared roots are right and without any collision, as long as the named scanner, if it is rerun, flags nothing in
   that corpus.
   */
  lemma NulEscapesCorpus(H: Hash, toy: Scanner, scanner: string, d: Doc) returns (scan: Scan, dec: Decision)
    requires !NulFree(d) && Apart(H, d)
    requires scanner == toy.version ==> forall c :: c in TwinCorpus(d) ==> !toy.Finds(c)
    ensures scan.scanner == scanner && d !in TwinCorpus(d)
    ensures FromRoot(H, toy, TwinCorpus(d), scan, dec, d) && HonestRoots(H, TwinCorpus(d), dec)
    ensures !ProofsCollide(H, TwinCorpus(d), dec, d)
  {
    var corpus := TwinCorpus(d);
    NulMovesBoundary(d);
    scan := Scan(true, Some(Root(H, corpus)), true, scanner);
    var index := TwinProved(H, corpus, Twin(d), d);
    dec := HonestDecision(H, corpus, d, index);
    TwinRoots(H, d);
    TwinProofApart(H, d, index);
  }

  /** A scanner that looks for the whole of a content with a NUL finds it there, and not in what follows the NUL. */
  lemma OwnContentFound(toy: Scanner, d: Doc)
    requires 0 in d.content && Folds(toy.fold) && toy.pattern == toy.fold(d.content)
    ensures toy.Finds(d) && !toy.Finds(Twin(d)) && !toy.Finds(EMPTY)
  {
    var n := FirstNul(d.content);
    var x, y := d.content[..n], d.content[n + 1..];
    assert d.content == x + [0] + y && FoldsAt(toy.fold, x, y);
    assert |toy.pattern| > |toy.fold(y)|;
    assert OccursAt(toy.pattern, toy.fold(d.content), 0);
  }

  /**
   With a NUL in its content, a document that the published scanner flags is consumed under a reproduced NO_FINDING.
   */
  lemma NulEscapesScanner(H: Hash, fold: Bytes -> Bytes, d: Doc) returns (toy: Scanner, scan: Scan, dec: Decision)
    requires 0 in d.content && Folds(fold) && Apart(H, d)
    ensures toy.fold == fold && toy.Finds(d) && d !in TwinCorpus(d)
    ensures FromRoot(H, toy, TwinCorpus(d), scan, dec, d) && HonestRoots(H, TwinCorpus(d), dec)
    ensures SubjectBound(H, toy, TwinCorpus(d), scan, dec) == (NoFinding, Reproduced)
    ensures scan.scanner == toy.version && !ProofsCollide(H, TwinCorpus(d), dec, d)
  {
    toy := Scanner("", fold(d.content), fold);
    OwnContentFound(toy, d);
    scan, dec := NulEscapesCorpus(H, toy, "", d);
  }

  /**
   A document consumed under a NO_FINDING over a corpus root is always a document of that corpus, up to collisions, if
   and only if it holds no NUL.
   */
  lemma InCorpusExactly(H: Hash, d: Doc)
    requires Apart(H, d)
    ensures NulFree(d) <==> forall toy, corpus, scan, dec ::
      FromRoot(H, toy, corpus, scan, dec, d) && HonestRoots(H, corpus, dec) ==>
        d in corpus || ProofsCollide(H, corpus, dec, d)
  {
    if NulFree(d) {
      forall toy, corpus, scan, dec | FromRoot(H, toy, corpus, scan, dec, d)
        ensures d in corpus || ProofsCollide(H, corpus, dec, d)
      {
        NoFindingConsumesScanned(H, toy, corpus, scan, dec, d);
      }
    } else {
      var scan, dec := NulEscapesCorpus(H, Scanner("", [], x => x), "another", d);
    }
  }

  /** A NO_FINDING over the corpus root that names the published scanner, for a decision with the right roots. */
  ghost predicate Reproduces(
    H: Hash, toy: Scanner, fold: Bytes -> Bytes, corpus: seq<Doc>, scan: Scan, dec: Decision, d: Doc)
  {
    && toy.fold == fold && scan.scanner == toy.version
    && FromRoot(H, toy, corpus, scan, dec, d) && HonestRoots(H, corpus, dec)
  }

  /**
   A document consumed under a reproduced NO_FINDING over a corpus root is never one that the rerun scanner flags, up to
   collisions, if and only if its content holds no NUL. A NUL in the id alone does not get past the scanner.
   */
  lemma UnflaggedExactly(H: Hash, fold: Bytes -> Bytes, d: Doc)
    requires Apart(H, d) && Folds(fold)
    ensures 0 !in d.content <==> forall toy, corpus, scan, dec ::
      Reproduces(H, toy, fold, corpus, scan, dec, d) ==> !toy.Finds(d) || ProofsCollide(H, corpus, dec, d)
  {
    if 0 !in d.content {
      forall toy, corpus, scan, dec | Reproduces(H, toy, fold, corpus, scan, dec, d)
        ensures !toy.Finds(d) || ProofsCollide(H, corpus, dec, d)
      {
        FlaggedIsNotConsumed(H, toy, corpus, scan, dec, d);
      }
    } else {
      var toy, scan, dec := NulEscapesScanner(H, fold, d);
      assert Reproduces(H, toy, fold, TwinCorpus(d), scan, dec, d);
    }
  }

  // Neither hypothesis is empty: some hash is apart on every document, and lowercasing ASCII letters folds.

  function Telling(x: Bytes, y: Bytes): Hash
  {
    (z: Bytes) => seq(DIGEST_SIZE, _ => if z == x then 0 else if z == y then 1 else 2)
  }

  lemma TellingApart(d: Doc)
    ensures Apart(Telling(LeafPre(d), LeafPre(EMPTY)), d)
  {
    var H := Telling(LeafPre(d), LeafPre(EMPTY));
    if !NulFree(d) {
      NulMovesBoundary(d);
      PairRoot(H, Twin(d), EMPTY);
      var ls := SortedLeaves(H, TwinCorpus(d));
      var n := Rfc9162(H).NodePre(ls[0], ls[1]);
      assert n[0] == 1 && LeafPre(d)[0] == 0 && LeafPre(EMPTY)[0] == 0;
      assert |LeafPre(EMPTY)| == 2 && |LeafPre(d)| > 2;
      TellingThree(LeafPre(d), LeafPre(EMPTY), n);
    }
  }

  lemma TellingThree(x: Bytes, y: Bytes, z: Bytes)
    requires x != y && y != z && z != x
    ensures !Collide(Telling(x, y), {x, y, z}, {x, y, z})
  {
    var H := Telling(x, y);
    assert H(x)[0] == 0 && H(y)[0] == 1 && H(z)[0] == 2;
  }

  function AsciiLower(s: Bytes): (r: Bytes)
    ensures |r| == |s|
  {
    seq(|s|, i requires 0 <= i < |s| => if 65 <= s[i] <= 90 then s[i] + 32 else s[i])
  }

  lemma AsciiLowerFolds()
    ensures Folds(AsciiLower)
  {
    forall x, y ensures FoldsAt(AsciiLower, x, y) {
      assert AsciiLower(x + [0] + y) == AsciiLower(x) + [0] + AsciiLower(y);
    }
  }

  /** Equal roots of two document lists: the same leaves in the same order, or a collision. */
  lemma RootsBindLeaves(H: Hash, a: seq<Doc>, b: seq<Doc>)
    requires |a| > 0 && |b| > 0 && Root(H, a) == Root(H, b)
    ensures Preimages(H, a) == Preimages(H, b) || Collide(H, CorpusPre(H, a), CorpusPre(H, b))
  {
    SortedLeavesAreDigests(H, a);
    SortedLeavesAreDigests(H, b);
    PreimagesLeafTyped(H, a);
    PreimagesLeafTyped(H, b);
    RootBinds(Rfc9162(H), Preimages(H, a), Preimages(H, b));
  }

  /**
   A NO_FINDING whose subject is the effective digest itself: where that digest is the root of what was retrieved, the
   scanned list is one document with the leaf of the retrieved one (that document itself, where it is named
   unambiguously), or a collision is exhibited; and a rerun scanner does not flag what was retrieved.
   */
  lemma NoFindingOfEffective(H: Hash, toy: Scanner, corpus: seq<Doc>, scan: Scan, dec: Decision, scanned: seq<Doc>)
    requires |corpus| > 0 && SubjectBound(H, toy, corpus, scan, dec).0 == NoFinding
    requires scan.subject == Some(dec.effective) && HonestRoots(H, corpus, dec)
    requires |scanned| > 0 && scan.subject == Some(Root(H, scanned))
    ensures |dec.retrieved| == 1 && (scan.scanner == toy.version ==> !toy.Finds(dec.retrieved[0]))
    ensures (|scanned| == 1 && LeafPre(scanned[0]) == LeafPre(dec.retrieved[0]))
         || Collide(H, CorpusPre(H, scanned), CorpusPre(H, dec.retrieved))
    ensures Named(scanned, dec.retrieved[0]) ==>
      scanned == dec.retrieved || Collide(H, CorpusPre(H, scanned), CorpusPre(H, dec.retrieved))
  {
    var d := dec.retrieved[0];
    assert d in dec.retrieved;
    RootsBindLeaves(H, scanned, dec.retrieved);
    if Preimages(H, scanned) == Preimages(H, dec.retrieved) {
      SortedLeavesAreDigests(H, scanned);
      SortedLeavesAreDigests(H, dec.retrieved);
      var x := Preimages(H, scanned)[0];
      var c := PreimageMembers(H, scanned, x);
      var c' := PreimageMembers(H, dec.retrieved, x);
      if Named(scanned, d) { LeafPreInjective(scanned[0], d); }
    }
  }

  // ---------------------------------------------------------------- completeness

  /** The decision an honest producer makes about one retrieved document. */
  ghost function HonestDecision(H: Hash, corpus: seq<Doc>, d: Doc, index: nat): Decision
    requires index < |SortedLeaves(H, corpus)| && |corpus| > 0
  {
    var ls := SortedLeaves(H, corpus);
    Decision(1, [d], Root(H, [d]), Root(H, corpus),
      [Proof(Leaf(H, d), index, |ls|, Path(Rfc9162(H), ls, index))])
  }

  /**
   For every corpus and every document in it, the honest decision is established under a recordwise scan of the root.
   */
  lemma HonestDecisionEstablished(H: Hash, toy: Scanner, corpus: seq<Doc>, scan: Scan, d: Doc) returns (index: nat)
    requires |corpus| > 0 && d in corpus
    requires scan.clean && scan.recordwise && scan.subject == Some(Root(H, corpus))
    ensures index < |SortedLeaves(H, corpus)| && SortedLeaves(H, corpus)[index] == Leaf(H, d)
    ensures var v := SubjectBound(H, toy, corpus, scan, HonestDecision(H, corpus, d, index));
      v.0 == NoFinding || (v == (Contradicted, Reproduced) && exists c :: c in corpus && toy.Finds(c))
  {
    index := TwinProved(H, corpus, d, d);
  }

  lemma LeafIndex(H: Hash, corpus: seq<Doc>, d: Doc) returns (index: nat)
    requires d in corpus
    ensures index < |SortedLeaves(H, corpus)| && SortedLeaves(H, corpus)[index] == Leaf(H, d)
  {
    var leaves := Map(d => Leaf(H, d), corpus);
    var n :| 0 <= n < |corpus| && corpus[n] == d;
    assert leaves[n] == Leaf(H, d);
    SortMembers(BytesLe, leaves, Leaf(H, d));
    index :| 0 <= index < |SortedLeaves(H, corpus)| && SortedLeaves(H, corpus)[index] == Leaf(H, d);
  }

  // ---------------------------------------------------------------- the verdicts, case by case

  /** The grade says who vouches: a rerun of the published scanner, a signed report, or nobody. */
  lemma GradeExactly(H: Hash, toy: Scanner, corpus: seq<Doc>, scan: Scan, dec: Decision)
    requires |corpus| > 0
    ensures var (verdict, grade) := SubjectBound(H, toy, corpus, scan, dec);
      && (grade == Ungraded <==> verdict == NotValid || verdict == CannotEstablish)
      && (grade == Reproduced <==> verdict in {NoFinding, Contradicted} && scan.scanner == toy.version)
      && (grade == AuthenticatedReport <==> verdict == NoFinding && scan.scanner != toy.version)
      && (verdict == NotValid <==> !scan.clean)
  {
  }

  /** A clean scan of the effective digest, for one retrieved document. */
  lemma EffectiveExactly(H: Hash, toy: Scanner, corpus: seq<Doc>, scan: Scan, dec: Decision, d: Doc)
    requires |corpus| > 0 && scan.clean && scan.subject == Some(dec.effective) && dec.k == 1 && dec.retrieved == [d]
    ensures SubjectBound(H, toy, corpus, scan, dec) ==
      if scan.scanner != toy.version then (NoFinding, AuthenticatedReport)
      else if Occurs(toy.pattern, toy.fold(d.content)) then (Contradicted, Reproduced)
      else (NoFinding, Reproduced)
  {
    assert d in dec.retrieved;
  }

  /** A clean scan of another subject, for one retrieved document: what it takes to be established. */
  lemma RootExactly(H: Hash, toy: Scanner, corpus: seq<Doc>, scan: Scan, dec: Decision, d: Doc)
    requires |corpus| > 0 && scan.clean && scan.subject.Some? && scan.subject != Some(dec.effective)
    requires dec.k == 1 && dec.retrieved == [d]
    ensures SubjectBound(H, toy, corpus, scan, dec).0 != CannotEstablish <==>
      && scan.recordwise
      && scan.subject.value == Root(H, corpus) && dec.corpusRoot == Root(H, corpus)
      && exists p :: p in dec.proofs && ProvesLeaf(H, p, H([0] + d.id + [0] + d.content), Root(H, corpus))
    ensures SubjectBound(H, toy, corpus, scan, dec).0 == Contradicted ==>
      scan.scanner == toy.version && exists c :: c in corpus && Occurs(toy.pattern, toy.fold(c.content))
  {
    assert d in dec.retrieved;
    ProvedExactly(H, dec, Leaf(H, d), Root(H, corpus));
  }

  predicate ProvesLeaf(H: Hash, p: Proof, leaf: Bytes, root: Bytes)
  {
    p.leaf == leaf && Accepts(Rfc9162(H), leaf, p.index, p.size, p.path, root)
  }

  lemma ProvedExactly(H: Hash, dec: Decision, leaf: Bytes, root: Bytes)
    ensures Proved(H, dec, leaf, root) <==> exists p :: p in dec.proofs && ProvesLeaf(H, p, leaf, root)
  {
    if p :| p in dec.proofs && ProvesLeaf(H, p, leaf, root) {
      var i :| 0 <= i < |dec.proofs| && dec.proofs[i] == p;
    }
    if Proved(H, dec, leaf, root) {
      var i :| 0 <= i < |dec.proofs| && var p := dec.proofs[i];
        p.leaf == leaf && Accepts(Rfc9162(H), p.leaf, p.index, p.size, p.path, root);
      assert dec.proofs[i] in dec.proofs && ProvesLeaf(H, dec.proofs[i], leaf, root);
    }
  }

  /** Other numbers of retrieved documents, and a scan without a subject, establish nothing. */
  lemma OnlyOneDocument(H: Hash, toy: Scanner, corpus: seq<Doc>, scan: Scan, dec: Decision)
    requires |corpus| > 0 && scan.clean && (scan.subject.None? || dec.k != 1 || |dec.retrieved| != 1)
    ensures SubjectBound(H, toy, corpus, scan, dec) == (CannotEstablish, Ungraded)
  {
  }
}
