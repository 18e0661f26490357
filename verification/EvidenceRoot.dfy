/**
 The Merkle root over the pinned items of an evidence set: canonical order, domain-separated leaves, odd node
 promoted.
 */
module EvidenceRoot {
  import opened Basics
  import opened Octets
  import opened Ordering
  import opened Merkle
  import opened Inclusion

  /** The four members a leaf commits to, as UTF-8 bytes. */
  datatype Item = Item(url: Bytes, snippet: Bytes, kind: Bytes, at: Bytes)

  // "ao-evidence-leaf-v2" and "ao-evidence-node-v1"
  const LEAF_PREFIX: Bytes := [97, 111, 45, 101, 118, 105, 100, 101, 110, 99, 101, 45, 108, 101, 97, 102, 45, 118, 50]
  const NODE_PREFIX: Bytes := [97, 111, 45, 101, 118, 105, 100, 101, 110, 99, 101, 45, 110, 111, 100, 101, 45, 118, 49]

  function Fields(i: Item): Bytes
  {
    i.url + [0] + (i.snippet + [0] + (i.kind + [0] + i.at))
  }

  function LeafPre(i: Item): Bytes
  {
    LEAF_PREFIX + [0] + Fields(i)
  }

  function EvidenceScheme(H: Hash): Scheme
  {
    Scheme(H, NODE_PREFIX + [0], [0])
  }

  /** Tuples compare member by member, bytewise. */
  predicate ItemLe(a: Item, b: Item)
  {
    if a.url != b.url then BytesLe(a.url, b.url)
    else if a.snippet != b.snippet then BytesLe(a.snippet, b.snippet)
    else if a.kind != b.kind then BytesLe(a.kind, b.kind)
    else BytesLe(a.at, b.at)
  }

  lemma ItemLeIsTotalOrder()
    ensures TotalOrder(ItemLe)
  {
    BytesLeIsTotalOrder();
    forall a: Item, b: Item, c: Item | ItemLe(a, b) && ItemLe(b, c) ensures ItemLe(a, c) {
      ItemLeTransitive(a, b, c);
    }
  }

  lemma ItemLeTransitive(a: Item, b: Item, c: Item)
    requires ItemLe(a, b) && ItemLe(b, c)
    ensures ItemLe(a, c)
  {
    MemberTransitive(a.url, b.url, c.url);
    MemberTransitive(a.snippet, b.snippet, c.snippet);
    MemberTransitive(a.kind, b.kind, c.kind);
    MemberTransitive(a.at, b.at, c.at);
  }

  lemma MemberTransitive(x: Bytes, y: Bytes, z: Bytes)
    ensures BytesLe(x, y) && BytesLe(y, z) ==> BytesLe(x, z)
    ensures BytesLe(x, y) && BytesLe(y, x) ==> x == y
    ensures BytesLe(y, z) && BytesLe(z, y) ==> y == z
  {
    if BytesLe(x, y) && BytesLe(y, z) { BytesLeTransitive(x, y, z); }
    BytesLeTotal(x, y);
    BytesLeTotal(y, z);
  }

  /** The canonical order of a set's pinned items. */
  function Canonical(items: seq<Item>): seq<Item>
  {
    Sort(ItemLe, items)
  }

  function Leaves(items: seq<Item>): seq<Bytes>
  {
    Map(LeafPre, Canonical(items))
  }

  lemma LeavesCount(items: seq<Item>)
    ensures |Leaves(items)| == |items|
  {
    SortPermutes(ItemLe, items);
  }

  /** None when nothing is pinned. */
  function Root(H: Hash, items: seq<Item>): Option<Digest>
  {
    LeavesCount(items);
    if items == [] then None else Some(Mth(EvidenceScheme(H), Digests(H, Leaves(items))))
  }

  method ComputeRoot(H: Hash, items: seq<Item>) returns (root: Option<Digest>)
    ensures root == Root(H, items)
  {
    LeavesCount(items);
    var level := Digests(H, Leaves(items));
    if level == [] { return None; }
    var r := BuildRoot(EvidenceScheme(H), level);
    root := Some(r);
  }

  /** The root forgets the order in which the sources are listed. */
  lemma RootOfPermutation(H: Hash, a: seq<Item>, b: seq<Item>)
    requires multiset(a) == multiset(b)
    ensures Root(H, a) == Root(H, b)
  {
    ItemLeIsTotalOrder();
    SortOfPermutation(ItemLe, a, b);
    SameSize(a, b);
  }

  predicate NulFree(i: Item)
  {
    0 !in i.url && 0 !in i.snippet && 0 !in i.kind && 0 !in i.at
  }

  lemma FieldsOfLeaf(i: Item, j: Item)
    ensures LeafPre(i) == LeafPre(j) <==> Fields(i) == Fields(j)
  {
    var n := |LEAF_PREFIX| + 1;
    assert LeafPre(i)[n..] == Fields(i) && LeafPre(j)[n..] == Fields(j);
  }

  /** Three NULs delimit the members; any further one stands inside a member. */
  lemma NulCount(i: Item)
    ensures NulFree(i) <==> multiset(Fields(i))[0] == 3
  {
    var a, b, c, d := i.url, i.snippet, i.kind, i.at;
    assert multiset(Fields(i)) == multiset(a) + multiset(b) + multiset(c) + multiset(d) + multiset([0, 0, 0]);
    assert forall m: Bytes :: 0 in m <==> multiset(m)[0] > 0;
  }

  /** A leaf whose members hold no NUL determines its item. */
  lemma LeafPreInjective(i: Item, j: Item)
    requires NulFree(i) && LeafPre(i) == LeafPre(j)
    ensures i == j
  {
    FieldsOfLeaf(i, j);
    NulCount(i);
    NulCount(j);
    NulDelimits(i.url, i.snippet + [0] + (i.kind + [0] + i.at), j.url, j.snippet + [0] + (j.kind + [0] + j.at));
    NulDelimits(i.snippet, i.kind + [0] + i.at, j.snippet, j.kind + [0] + j.at);
    NulDelimits(i.kind, i.at, j.kind, j.at);
  }

  /** A NUL inside any of the four members moves a boundary between members without changing the leaf. */
  lemma NulMovesBoundary(i: Item) returns (j: Item)
    requires !NulFree(i)
    ensures j != i && LeafPre(j) == LeafPre(i)
  {
    if 0 in i.url {
      var u, x := SplitAtNul(i.url);
      j := Item(u, x + [0] + i.snippet, i.kind, i.at);
      Moved(u, x, i.snippet, i.kind + [0] + i.at);
    } else if 0 in i.snippet {
      var x, y := SplitAtNul(i.snippet);
      j := Item(i.url + [0] + x, y, i.kind, i.at);
      Moved(i.url, x, y, i.kind + [0] + i.at);
    } else if 0 in i.kind {
      var x, y := SplitAtNul(i.kind);
      j := Item(i.url, i.snippet + [0] + x, y, i.at);
      Moved(i.snippet, x, y, i.at);
    } else {
      var x, y := SplitAtNul(i.at);
      j := Item(i.url, i.snippet, i.kind + [0] + x, y);
      Associative(i.kind + [0], x, [0] + y);
    }
  }

  lemma SplitAtNul(m: Bytes) returns (x: Bytes, y: Bytes)
    requires 0 in m
    ensures m == x + [0] + y
  {
    var n :| 0 <= n < |m| && m[n] == 0;
    x, y := m[..n], m[n + 1..];
  }

  lemma Moved(u: Bytes, x: Bytes, y: Bytes, rest: Bytes)
    ensures (u + [0] + x) + [0] + (y + [0] + rest) == u + [0] + ((x + [0] + y) + [0] + rest)
    ensures u + [0] + x != u && x + [0] + y != y
  {
    assert |u + [0] + x| > |u| && |x + [0] + y| > |y|;
  }

  /** Exactly the NUL-free items are determined by their leaves. */
  lemma LeafDeterminesItem(i: Item)
    ensures (forall j :: LeafPre(j) == LeafPre(i) ==> j == i) <==> NulFree(i)
  {
    if NulFree(i) {
      forall j | LeafPre(j) == LeafPre(i) ensures j == i { LeafPreInjective(i, j); }
    } else {
      var j := NulMovesBoundary(i);
    }
  }

  lemma LeafIsNotNode(H: Hash, i: Item)
    ensures !(EvidenceScheme(H).tag <= LeafPre(i))
  {
    assert LeafPre(i)[12] == LEAF_PREFIX[12] && EvidenceScheme(H).tag[12] == NODE_PREFIX[12];
  }

  lemma LeavesTyped(H: Hash, items: seq<Item>)
    ensures LeafTyped(EvidenceScheme(H), Leaves(items))
  {
    var s := Canonical(items);
    forall x | x in Leaves(items) ensures !(EvidenceScheme(H).tag <= x) {
      var n :| 0 <= n < |Leaves(items)| && Leaves(items)[n] == x;
      LeafIsNotNode(H, s[n]);
    }
  }

  /** Equal lists of leaves come from equal lists of items. */
  lemma LeavesInjective(a: seq<Item>, b: seq<Item>)
    requires forall i :: i in a ==> NulFree(i)
    requires Map(LeafPre, a) == Map(LeafPre, b)
    ensures a == b
  {
    assert |Map(LeafPre, a)| == |Map(LeafPre, b)|;
    forall n | 0 <= n < |a| ensures a[n] == b[n] {
      assert Map(LeafPre, a)[n] == Map(LeafPre, b)[n];
      LeafPreInjective(a[n], b[n]);
    }
  }

  /** Everything hashed for a set's root. */
  function RootPreimages(H: Hash, items: seq<Item>): set<Bytes>
  {
    LeavesCount(items);
    if items == [] then {} else AllPre(EvidenceScheme(H), Leaves(items))
  }

  /**
   Equal roots of two lists, one of them NUL-free, also of different sizes: the canonically sorted pinned items are
   equal, or a collision among the hashed byte strings is exhibited.
   */
  lemma RootBindsItems(H: Hash, a: seq<Item>, b: seq<Item>)
    requires forall i :: i in a ==> NulFree(i)
    requires Root(H, a) == Root(H, b)
    ensures Canonical(a) == Canonical(b) || Collide(H, RootPreimages(H, a), RootPreimages(H, b))
  {
    if a != [] {
      LeavesCount(a);
      LeavesCount(b);
      LeavesTyped(H, a);
      LeavesTyped(H, b);
      RootBinds(EvidenceScheme(H), Leaves(a), Leaves(b));
      if Leaves(a) == Leaves(b) {
        forall i ensures (i in Canonical(a) <==> i in a) && (i in Canonical(b) <==> i in b) {
          SortMembers(ItemLe, a, i);
          SortMembers(ItemLe, b, i);
        }
        LeavesInjective(Canonical(a), Canonical(b));
      }
    }
  }

  /** The same multiset of items is bound: equal canonical lists are equal up to order. */
  lemma CanonicalDeterminesItems(a: seq<Item>, b: seq<Item>)
    requires Canonical(a) == Canonical(b)
    ensures multiset(a) == multiset(b)
  {
    SortPermutes(ItemLe, a);
    SortPermutes(ItemLe, b);
  }

  // ---------------------------------------------------------------- the bytes and the order

  /** The leaf bytes: the prefix and the four members, each after a NUL, in this order. */
  lemma LeafBytes(i: Item)
    ensures LeafPre(i) == Ascii("ao-evidence-leaf-v2")
      + ([0] + i.url) + ([0] + i.snippet) + ([0] + i.kind) + ([0] + i.at)
  {
    assert LEAF_PREFIX == Ascii("ao-evidence-leaf-v2");
  }

  /** The node bytes of two leaves: the prefix and the two digests, each after a NUL. */
  lemma NodeBytes(H: Hash, a: Digest, b: Digest)
    ensures Mth(EvidenceScheme(H), [a, b]) == H(Ascii("ao-evidence-node-v1") + ([0] + a) + ([0] + b))
  {
    assert NODE_PREFIX == Ascii("ao-evidence-node-v1");
    assert [a, b][..1] == [a] && [a, b][1..] == [b];
    assert NODE_PREFIX + [0] + a + [0] + b == NODE_PREFIX + ([0] + a) + ([0] + b);
  }

  /** Items compare by url, then snippet, then kind, then time, each bytewise. */
  lemma ItemLeExactly(a: Item, b: Item)
    ensures ItemLe(a, b) <==>
      || a == b
      || BytesBefore(a.url, b.url)
      || (a.url == b.url && BytesBefore(a.snippet, b.snippet))
      || (a.url == b.url && a.snippet == b.snippet && BytesBefore(a.kind, b.kind))
      || (a.url == b.url && a.snippet == b.snippet && a.kind == b.kind && BytesBefore(a.at, b.at))
  {
    BytesLeExactly(a.url, b.url);
    BytesLeExactly(a.snippet, b.snippet);
    BytesLeExactly(a.kind, b.kind);
    BytesLeExactly(a.at, b.at);
    BeforeIrreflexive(a.url);
    BeforeIrreflexive(a.snippet);
    BeforeIrreflexive(a.kind);
    BeforeIrreflexive(a.at);
  }

  lemma BeforeIrreflexive(a: Bytes)
    ensures !BytesBefore(a, a)
  {
  }

  /** One item: the root is the digest of its leaf bytes. */
  lemma SingleItem(H: Hash, i: Item)
    ensures Root(H, [i]) == Some(H(LeafPre(i)))
  {
    LeavesCount([i]);
    SortMembers(ItemLe, [i], i);
    SortPermutes(ItemLe, [i]);
    SameSize([i], Canonical([i]));
    assert Canonical([i]) == [i];
    assert Leaves([i]) == [LeafPre(i)];
  }
}
