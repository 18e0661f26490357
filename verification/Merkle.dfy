/**
 Merkle tree hashes: the recursive split at the largest power of two below the length (section 2.1.1
 of RFC 9162) and the bottom-up level loop with odd-node promotion.
 */
module Merkle {
  import opened Basics
  import opened Octets

  /** A node hash is H(tag || left || sep || right); the two logs and the evidence set differ only in tag and sep. */
  datatype Scheme = Scheme(H: Hash, tag: Bytes, sep: Bytes) {

    function NodePre(l: Bytes, r: Bytes): Bytes
    {
      tag + l + sep + r
    }

    function Node(l: Bytes, r: Bytes): Digest
    {
      H(NodePre(l, r))
    }

    lemma NodePreInjective(l: Bytes, r: Bytes, l': Bytes, r': Bytes)
      requires |l| == |l'| || |r| == |r'|
      requires NodePre(l, r) == NodePre(l', r')
      ensures l == l' && r == r'
    {
      var p, p', t := NodePre(l, r), NodePre(l', r'), |tag|;
      assert |p| == t + |l| + |sep| + |r| && |p'| == t + |l'| + |sep| + |r'|;
      assert l == p[t..t + |l|] && l' == p'[t..t + |l'|];
      assert r == p[t + |l| + |sep|..] && r' == p'[t + |l'| + |sep|..];
    }
  }

  /** The scheme of RFC 9162: one domain byte, no separator. */
  function Rfc9162(H: Hash): Scheme
  {
    Scheme(H, [1], [])
  }

  /** Doubling k until twice k reaches n. */
  function DoubleUpTo(k: nat, n: nat): (r: nat)
    requires 0 < k < n
    ensures k <= r < n <= 2 * r
    decreases n - k
  {
    if 2 * k < n then DoubleUpTo(2 * k, n) else k
  }

  /** The split point: the largest power of two strictly below n. */
  function Split(n: nat): (k: nat)
    requires n >= 2
    ensures 0 < k < n <= 2 * k
  {
    DoubleUpTo(1, n)
  }

  lemma {:induction false} DoublingIsPow2(k: nat, n: nat, e: nat) returns (x: nat)
    requires 0 < k < n && k == Pow2(e)
    ensures DoubleUpTo(k, n) == Pow2(x)
    decreases n - k
  {
    if 2 * k < n {
      x := DoublingIsPow2(2 * k, n, e + 1);
    } else {
      x := e;
    }
  }

  /** The split point is a power of two below n, and every power of two below n is at most it. */
  lemma SplitIsLargestPow2(n: nat)
    requires n >= 2
    ensures exists e :: Split(n) == Pow2(e)
    ensures forall e :: Pow2(e) < n ==> Pow2(e) <= Split(n)
  {
    var x := DoublingIsPow2(1, n, 0);
    forall e | Pow2(e) < n ensures Pow2(e) <= Split(n) {
      if e > x {
        Pow2Grows(x + 1, e);
      } else {
        Pow2Grows(e, x);
      }
    }
  }

  /** Halving a size, rounding up, halves its split point. */
  lemma {:induction false} DoublingHalves(k: nat, n: nat, m: nat)
    requires 0 < k < m && n <= 2 * m <= n + 1
    ensures 2 * k < n && DoubleUpTo(2 * k, n) == 2 * DoubleUpTo(k, m)
    decreases m - k
  {
    if 2 * k < m {
      DoublingHalves(2 * k, n, m);
    }
  }

  lemma SplitHalves(n: nat, m: nat)
    requires n > 2 && n <= 2 * m <= n + 1
    ensures Split(n) == 2 * Split(m)
  {
    DoublingHalves(1, n, m);
  }

  /** The doubling loop both tree functions run to find the split point. */
  method FindSplit(n: nat) returns (k: nat)
    requires n >= 2
    ensures k == Split(n)
  {
    k := 1;
    while k * 2 < n
      invariant 0 < k < n && DoubleUpTo(k, n) == Split(n)
    {
      k := k * 2;
    }
  }

  /** Merkle tree hash by recursive split. */
  function Mth(s: Scheme, ls: seq<Digest>): Digest
    requires |ls| > 0
  {
    if |ls| == 1 then ls[0] else
      var k := Split(|ls|);
      s.Node(Mth(s, ls[..k]), Mth(s, ls[k..]))
  }

  /** The tree hash as it is run: each call searches its own split point. */
  method ComputeMth(s: Scheme, ls: seq<Digest>) returns (r: Digest)
    requires |ls| > 0
    ensures r == Mth(s, ls)
  {
    if |ls| == 1 { return ls[0]; }
    var k := FindSplit(|ls|);
    var left := ComputeMth(s, ls[..k]);
    var right := ComputeMth(s, ls[k..]);
    r := s.Node(left, right);
  }

  /** One level up: neighbours are paired, an odd last node is promoted unchanged. */
  function Level(s: Scheme, cur: seq<Digest>): (up: seq<Digest>)
    ensures |cur| <= 2 * |up| <= |cur| + 1
  {
    if |cur| < 2 then cur else [s.Node(cur[0], cur[1])] + Level(s, cur[2..])
  }

  lemma {:induction false} LevelAt(s: Scheme, cur: seq<Digest>, j: nat)
    requires 2 * j < |cur|
    ensures Level(s, cur)[j] == if 2 * j + 1 < |cur| then s.Node(cur[2 * j], cur[2 * j + 1]) else cur[2 * j]
  {
    if |cur| >= 2 && j > 0 {
      LevelAt(s, cur[2..], j - 1);
    }
  }

  lemma {:induction false} LevelConcat(s: Scheme, ls: seq<Digest>, h: nat)
    requires 2 * h <= |ls|
    ensures Level(s, ls) == Level(s, ls[..2 * h]) + Level(s, ls[2 * h..])
  {
    if h == 0 {
      assert ls[..0] == [] && ls[0..] == ls;
    } else {
      var first, rest := s.Node(ls[0], ls[1]), ls[2..];
      calc {
        Level(s, ls);
        [first] + Level(s, rest);
        { LevelConcat(s, rest, h - 1); }
        [first] + (Level(s, rest[..2 * h - 2]) + Level(s, rest[2 * h - 2..]));
        { assert rest[..2 * h - 2] == ls[..2 * h][2..] && rest[2 * h - 2..] == ls[2 * h..]; }
        [first] + (Level(s, ls[..2 * h][2..]) + Level(s, ls[2 * h..]));
        { Associative([first], Level(s, ls[..2 * h][2..]), Level(s, ls[2 * h..])); }
        ([first] + Level(s, ls[..2 * h][2..])) + Level(s, ls[2 * h..]);
        Level(s, ls[..2 * h]) + Level(s, ls[2 * h..]);
      }
    }
  }

  /** Splitting a level at half the split point is taking the two halves' levels. */
  lemma LevelSplit(s: Scheme, ls: seq<Digest>) returns (h: nat)
    requires |ls| > 2
    ensures var up := Level(s, ls);
      |ls| <= 2 * |up| <= |ls| + 1 && h == Split(|up|) && Split(|ls|) == 2 * h
      && up[..h] == Level(s, ls[..2 * h]) && up[h..] == Level(s, ls[2 * h..])
  {
    SplitHalves(|ls|, |Level(s, ls)|);
    h := Split(|Level(s, ls)|);
    LevelConcat(s, ls, h);
    assert |Level(s, ls[..2 * h])| == h;
  }

  /** Promoting one level keeps the recursive tree hash. */
  lemma {:induction false} LevelKeepsMth(s: Scheme, ls: seq<Digest>)
    requires |ls| > 0
    ensures Mth(s, Level(s, ls)) == Mth(s, ls)
    decreases |ls|
  {
    if |ls| == 1 {
      assert Level(s, ls) == ls;
    } else if |ls| == 2 {
      assert ls[..1] == [ls[0]] && ls[1..] == [ls[1]];
    } else {
      var h := LevelSplit(s, ls);
      LevelKeepsMth(s, ls[..2 * h]);
      LevelKeepsMth(s, ls[2 * h..]);
    }
  }

  /** Level after level up to a single node. */
  function BottomUp(s: Scheme, ls: seq<Digest>): Digest
    requires |ls| > 0
    decreases |ls|
  {
    if |ls| == 1 then ls[0] else BottomUp(s, Level(s, ls))
  }

  /** For every non-empty list of leaves the two constructions give the same root. */
  lemma {:induction false} BottomUpIsMth(s: Scheme, ls: seq<Digest>)
    requires |ls| > 0
    ensures BottomUp(s, ls) == Mth(s, ls)
    decreases |ls|
  {
    if |ls| > 1 {
      LevelKeepsMth(s, ls);
      BottomUpIsMth(s, Level(s, ls));
    }
  }

  /** The level loop computes the recursive tree hash, for every non-empty list of leaves. */
  method BuildRoot(s: Scheme, leaves: seq<Digest>) returns (root: Digest)
    requires |leaves| > 0
    ensures root == Mth(s, leaves)
  {
    var cur := leaves;
    while |cur| > 1
      invariant |cur| > 0
      invariant BottomUp(s, cur) == BottomUp(s, leaves)
      decreases |cur|
    {
      var nxt := PairUp(s, cur);
      cur := nxt;
    }
    root := cur[0];
    BottomUpIsMth(s, leaves);
  }

  lemma LevelFrom(s: Scheme, cur: seq<Digest>, i: nat)
    requires i <= |cur|
    ensures |cur| - i < 2 ==> Level(s, cur[i..]) == cur[i..]
    ensures |cur| - i >= 2 ==> Level(s, cur[i..]) == [s.Node(cur[i], cur[i + 1])] + Level(s, cur[i + 2..])
  {
    if |cur| - i >= 2 {
      assert cur[i..][2..] == cur[i + 2..];
    }
  }

  lemma OddRest(n: nat, pairs: nat)
    requires 2 * pairs <= n < 2 * pairs + 2
    ensures n % 2 == 1 <==> n == 2 * pairs + 1
  {
  }

  /** One pass of the loop: pairs up to the last full pair, then the promotion. */
  method PairUp(s: Scheme, cur: seq<Digest>) returns (nxt: seq<Digest>)
    ensures nxt == Level(s, cur)
  {
    nxt := [];
    var i := 0;
    ghost var full := Level(s, cur);
    while i + 1 < |cur|
      invariant i == 2 * |nxt| <= |cur|
      invariant nxt + Level(s, cur[i..]) == full
      decreases |cur| - i
    {
      LevelFrom(s, cur, i);
      Associative(nxt, [s.Node(cur[i], cur[i + 1])], Level(s, cur[i + 2..]));
      nxt := nxt + [s.Node(cur[i], cur[i + 1])];
      i := i + 2;
    }
    LevelFrom(s, cur, i);
    OddRest(|cur|, |nxt|);
    if |cur| % 2 == 1 {
      assert cur[i..] == [cur[i]];
      nxt := nxt + [cur[|cur| - 1]];
    }
  }

  lemma Associative<T>(a: seq<T>, b: seq<T>, c: seq<T>)
    ensures (a + b) + c == a + (b + c)
  {
  }

  /** The bytes hashed for two leaves: the tag 1, then the left and the right digest. */
  lemma TwoLeaves(H: Hash, a: Digest, b: Digest)
    ensures Mth(Rfc9162(H), [a, b]) == H([1] + a + b)
  {
    assert [a, b][..1] == [a] && [a, b][1..] == [b];
    assert [1] + a + [] + b == [1] + a + b;
  }
}
