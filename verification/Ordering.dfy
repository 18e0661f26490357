/** Stable sorting by a comparison, and the bytewise order the checkers sort by. */
module Ordering {
  import opened Octets

  ghost predicate TotalPreorder<T(!new)>(le: (T, T) -> bool)
  {
    && (forall a, b :: le(a, b) || le(b, a))
    && (forall a, b, c :: le(a, b) && le(b, c) ==> le(a, c))
  }

  ghost predicate TotalOrder<T(!new)>(le: (T, T) -> bool)
  {
    TotalPreorder(le) && forall a, b :: le(a, b) && le(b, a) ==> a == b
  }

  ghost predicate Sorted<T>(le: (T, T) -> bool, s: seq<T>)
  {
    forall i, j :: 0 <= i < j < |s| ==> le(s[i], s[j])
  }

  function Insert<T>(le: (T, T) -> bool, x: T, s: seq<T>): seq<T>
  {
    if s == [] || le(x, s[0]) then [x] + s else [s[0]] + Insert(le, x, s[1..])
  }

  /** A stable sort: equal elements keep their order. */
  function Sort<T>(le: (T, T) -> bool, s: seq<T>): seq<T>
  {
    if s == [] then [] else Insert(le, s[0], Sort(le, s[1..]))
  }

  lemma {:induction false} InsertKeeps<T>(le: (T, T) -> bool, x: T, s: seq<T>)
    ensures multiset(Insert(le, x, s)) == multiset{x} + multiset(s)
  {
    if s != [] && !le(x, s[0]) {
      InsertKeeps(le, x, s[1..]);
      assert s == [s[0]] + s[1..];
    }
  }

  lemma {:induction false} SortPermutes<T>(le: (T, T) -> bool, s: seq<T>)
    ensures multiset(Sort(le, s)) == multiset(s) && |Sort(le, s)| == |s|
  {
    if s != [] {
      SortPermutes(le, s[1..]);
      InsertKeeps(le, s[0], Sort(le, s[1..]));
      assert s == [s[0]] + s[1..];
    }
    assert |multiset(Sort(le, s))| == |multiset(s)|;
  }

  lemma SortMembers<T>(le: (T, T) -> bool, s: seq<T>, x: T)
    ensures x in Sort(le, s) <==> x in s
  {
    SortPermutes(le, s);
    assert x in multiset(Sort(le, s)) <==> x in multiset(s);
  }

  lemma {:induction false} InsertSorts<T(!new)>(le: (T, T) -> bool, x: T, s: seq<T>)
    requires TotalPreorder(le) && Sorted(le, s)
    ensures Sorted(le, Insert(le, x, s))
  {
    if s != [] && !le(x, s[0]) {
      InsertSorts(le, x, s[1..]);
      InsertKeeps(le, x, s[1..]);
      var r := Insert(le, x, s[1..]);
      forall j | 0 <= j < |r| ensures le(s[0], r[j]) {
        assert r[j] in multiset(r);
      }
    }
  }

  lemma {:induction false} SortSorts<T(!new)>(le: (T, T) -> bool, s: seq<T>)
    requires TotalPreorder(le)
    ensures Sorted(le, Sort(le, s))
  {
    if s != [] {
      SortSorts(le, s[1..]);
      InsertSorts(le, s[0], Sort(le, s[1..]));
    }
  }

  /** No two different elements of s compare equal. */
  ghost predicate Strict<T>(le: (T, T) -> bool, s: seq<T>)
  {
    forall x, y :: x in s && y in s && le(x, y) && le(y, x) ==> x == y
  }

  lemma StrictPermutes<T>(le: (T, T) -> bool, a: seq<T>, b: seq<T>)
    requires Strict(le, a) && multiset(a) == multiset(b)
    ensures Strict(le, b)
  {
    SameSize(a, b);
  }

  /** A list whose elements are told apart by the comparison has one sorted arrangement. */
  lemma {:induction false} SortedUnique<T(!new)>(le: (T, T) -> bool, a: seq<T>, b: seq<T>)
    requires TotalPreorder(le) && Strict(le, a) && Sorted(le, a) && Sorted(le, b) && multiset(a) == multiset(b)
    ensures a == b
    decreases |a|
  {
    SameSize(a, b);
    if a != [] {
      FirstIsFirst(le, a, b);
      assert a == [a[0]] + a[1..] && b == [b[0]] + b[1..];
      Cancel(a[0], multiset(a[1..]), multiset(b[1..]));
      assert forall x :: x in a[1..] ==> x in a;
      SortedUnique(le, a[1..], b[1..]);
    }
  }

  lemma FirstIsFirst<T(!new)>(le: (T, T) -> bool, a: seq<T>, b: seq<T>)
    requires TotalPreorder(le) && Strict(le, a) && Sorted(le, a) && Sorted(le, b)
    requires multiset(a) == multiset(b) && a != [] && b != []
    ensures a[0] == b[0]
  {
    SameSize(a, b);
    assert b[0] in a && a[0] in b;
    var i :| 0 <= i < |a| && a[i] == b[0];
    var j :| 0 <= j < |b| && b[j] == a[0];
    assert le(a[0], a[i]) && le(b[0], b[j]);
  }

  /** Sorting forgets the order of its input. */
  lemma SortOfPermutation<T(!new)>(le: (T, T) -> bool, a: seq<T>, b: seq<T>)
    requires TotalPreorder(le) && Strict(le, a) && multiset(a) == multiset(b)
    ensures Sort(le, a) == Sort(le, b)
  {
    SortPermutes(le, a);
    SortPermutes(le, b);
    SortSorts(le, a);
    SortSorts(le, b);
    StrictPermutes(le, a, Sort(le, a));
    SortedUnique(le, Sort(le, a), Sort(le, b));
  }

  function Filter<T(!new)>(p: T -> bool, s: seq<T>): (r: seq<T>)
    ensures forall x :: x in r <==> x in s && p(x)
  {
    if s == [] then [] else (if p(s[0]) then [s[0]] else []) + Filter(p, s[1..])
  }

  lemma {:induction false} FilterCount<T(!new)>(p: T -> bool, s: seq<T>, x: T)
    ensures multiset(Filter(p, s))[x] == if p(x) then multiset(s)[x] else 0
  {
    if s != [] {
      FilterCount(p, s[1..], x);
      assert s == [s[0]] + s[1..];
    }
  }

  function Map<T, U>(f: T -> U, s: seq<T>): (r: seq<U>)
    ensures |r| == |s| && forall i :: 0 <= i < |s| ==> r[i] == f(s[i])
  {
    if s == [] then [] else [f(s[0])] + Map(f, s[1..])
  }

  /** The comparison of two elements by their keys. */
  function ByKey<T, K>(le: (K, K) -> bool, key: T -> K): (T, T) -> bool
  {
    (a, b) => le(key(a), key(b))
  }

  lemma {:induction false} InsertByKey<T, K>(le: (K, K) -> bool, key: T -> K, x: T, s: seq<T>)
    ensures Map(key, Insert(ByKey(le, key), x, s)) == Insert(le, key(x), Map(key, s))
  {
    if s != [] && !le(key(x), key(s[0])) {
      InsertByKey(le, key, x, s[1..]);
      assert Map(key, s)[1..] == Map(key, s[1..]);
    }
  }

  /** Sorting by a key and reading the keys is sorting the keys. */
  lemma {:induction false} SortByKey<T, K>(le: (K, K) -> bool, key: T -> K, s: seq<T>)
    ensures Map(key, Sort(ByKey(le, key), s)) == Sort(le, Map(key, s))
  {
    if s != [] {
      SortByKey(le, key, s[1..]);
      InsertByKey(le, key, s[0], Sort(ByKey(le, key), s[1..]));
    }
  }

  lemma MapConcat<T, U>(f: T -> U, a: seq<T>, b: seq<T>)
    ensures Map(f, a + b) == Map(f, a) + Map(f, b)
  {
  }

  /** Taking one occurrence of x out of s takes one occurrence of f(x) out of the image. */
  lemma TakeOut<T, U>(f: T -> U, s: seq<T>, x: T) returns (rest: seq<T>)
    requires x in s
    ensures multiset(s) == multiset{x} + multiset(rest) && |rest| < |s|
    ensures multiset(Map(f, s)) == multiset{f(x)} + multiset(Map(f, rest))
  {
    var i :| 0 <= i < |s| && s[i] == x;
    var l, r := s[..i], s[i + 1..];
    rest := l + r;
    assert s == (l + [x]) + r;
    MapConcat(f, l + [x], r);
    MapConcat(f, l, [x]);
    MapConcat(f, l, r);
  }

  lemma SameSize<T>(a: seq<T>, b: seq<T>)
    requires multiset(a) == multiset(b)
    ensures |a| == |b| && forall x :: x in a <==> x in b
  {
    assert |multiset(a)| == |a| && |multiset(b)| == |b|;
    assert forall x :: x in a <==> x in multiset(a);
  }

  lemma Cancel<T>(x: T, a: multiset<T>, b: multiset<T>)
    requires multiset{x} + a == multiset{x} + b
    ensures a == b
  {
    assert a == (multiset{x} + a) - multiset{x} == b;
  }

  lemma {:induction false} MapPermutes<T, U>(f: T -> U, a: seq<T>, b: seq<T>)
    requires multiset(a) == multiset(b)
    ensures multiset(Map(f, a)) == multiset(Map(f, b))
    decreases |a|
  {
    SameSize(a, b);
    if a != [] {
      var x := a[0];
      var a' := TakeOut(f, a, x);
      var b' := TakeOut(f, b, x);
      Cancel(x, multiset(a'), multiset(b'));
      MapPermutes(f, a', b');
    }
  }

  // ---------------------------------------------------------------- bytewise order

  predicate BytesLe(a: Bytes, b: Bytes)
  {
    a == [] || (b != [] && (a[0] < b[0] || (a[0] == b[0] && BytesLe(a[1..], b[1..]))))
  }

  lemma {:induction false} BytesLeTotal(a: Bytes, b: Bytes)
    ensures BytesLe(a, b) || BytesLe(b, a)
    ensures BytesLe(a, b) && BytesLe(b, a) ==> a == b
  {
    if a != [] && b != [] {
      BytesLeTotal(a[1..], b[1..]);
    }
  }

  lemma {:induction false} BytesLeTransitive(a: Bytes, b: Bytes, c: Bytes)
    requires BytesLe(a, b) && BytesLe(b, c)
    ensures BytesLe(a, c)
  {
    if a != [] && b[0] == a[0] && c[0] == b[0] {
      BytesLeTransitive(a[1..], b[1..], c[1..]);
    }
  }

  lemma BytesLeIsTotalOrder()
    ensures TotalOrder(BytesLe)
  {
    forall a: Bytes, b: Bytes ensures BytesLe(a, b) || BytesLe(b, a) { BytesLeTotal(a, b); }
    forall a: Bytes, b: Bytes ensures BytesLe(a, b) && BytesLe(b, a) ==> a == b { BytesLeTotal(a, b); }
    forall a: Bytes, b: Bytes, c: Bytes | BytesLe(a, b) && BytesLe(b, c) ensures BytesLe(a, c) {
      BytesLeTransitive(a, b, c);
    }
  }

  /** a is a proper prefix of b, or has the smaller byte where they first differ. */
  ghost predicate BytesBefore(a: Bytes, b: Bytes)
  {
    || (|a| < |b| && a == b[..|a|])
    || exists p :: 0 <= p < |a| && p < |b| && BytesDifferAt(a, b, p)
  }

  predicate BytesDifferAt(a: Bytes, b: Bytes, p: nat)
    requires p < |a| && p < |b|
  {
    a[..p] == b[..p] && a[p] < b[p]
  }

  lemma {:induction false} BytesLeExactly(a: Bytes, b: Bytes)
    ensures BytesLe(a, b) <==> a == b || BytesBefore(a, b)
  {
    if a == [] {
      assert b == [] || a == b[..0];
    } else if b != [] {
      if a[0] == b[0] {
        BytesLeExactly(a[1..], b[1..]);
        BytesBeforeTail(a, b);
      } else if a[0] < b[0] {
        assert BytesDifferAt(a, b, 0);
      } else {
        assert forall p :: 0 <= p < |a| && p < |b| && BytesDifferAt(a, b, p) ==> p == 0 || a[..p][0] == b[..p][0];
      }
    }
  }

  lemma BytesBeforeTail(a: Bytes, b: Bytes)
    requires a != [] && b != [] && a[0] == b[0]
    ensures a == b <==> a[1..] == b[1..]
    ensures BytesBefore(a, b) <==> BytesBefore(a[1..], b[1..])
  {
    var x, y := a[1..], b[1..];
    assert a == [a[0]] + x && b == [a[0]] + y;
    if |a| < |b| {
      assert b[..|a|] == [a[0]] + y[..|x|];
    }
    forall p | 0 <= p < |x| && p < |y| ensures BytesDifferAt(x, y, p) <==> BytesDifferAt(a, b, p + 1) {
      assert a[..p + 1] == [a[0]] + x[..p] && b[..p + 1] == [a[0]] + y[..p];
      assert x[..p] == a[..p + 1][1..] && y[..p] == b[..p + 1][1..];
    }
    if p :| 0 <= p < |a| && p < |b| && BytesDifferAt(a, b, p) {
      assert p > 0;
      assert BytesDifferAt(x, y, p - 1);
    }
  }

  // ---------------------------------------------------------------- lexicographic order of number sequences

  predicate LexLe(a: seq<nat>, b: seq<nat>)
  {
    a == [] || (b != [] && (a[0] < b[0] || (a[0] == b[0] && LexLe(a[1..], b[1..]))))
  }

  lemma {:induction false} LexLeTotal(a: seq<nat>, b: seq<nat>)
    ensures LexLe(a, b) || LexLe(b, a)
    ensures LexLe(a, b) && LexLe(b, a) ==> a == b
  {
    if a != [] && b != [] {
      LexLeTotal(a[1..], b[1..]);
    }
  }

  lemma {:induction false} LexLeTransitive(a: seq<nat>, b: seq<nat>, c: seq<nat>)
    requires LexLe(a, b) && LexLe(b, c)
    ensures LexLe(a, c)
  {
    if a != [] && b[0] == a[0] && c[0] == b[0] {
      LexLeTransitive(a[1..], b[1..], c[1..]);
    }
  }

  /** a is a proper prefix of b, or has the smaller number where they first differ. */
  ghost predicate LexBefore(a: seq<nat>, b: seq<nat>)
  {
    || (|a| < |b| && a == b[..|a|])
    || exists p :: 0 <= p < |a| && p < |b| && LexDifferAt(a, b, p)
  }

  predicate LexDifferAt(a: seq<nat>, b: seq<nat>, p: nat)
    requires p < |a| && p < |b|
  {
    a[..p] == b[..p] && a[p] < b[p]
  }

  lemma {:induction false} LexLeExactly(a: seq<nat>, b: seq<nat>)
    ensures LexLe(a, b) <==> a == b || LexBefore(a, b)
  {
    if a == [] {
      assert b == [] || a == b[..0];
    } else if b != [] {
      if a[0] == b[0] {
        LexLeExactly(a[1..], b[1..]);
        LexBeforeTail(a, b);
      } else if a[0] < b[0] {
        assert LexDifferAt(a, b, 0);
      } else {
        assert forall p :: 0 <= p < |a| && p < |b| && LexDifferAt(a, b, p) ==> p == 0 || a[..p][0] == b[..p][0];
      }
    }
  }

  lemma LexBeforeTail(a: seq<nat>, b: seq<nat>)
    requires a != [] && b != [] && a[0] == b[0]
    ensures a == b <==> a[1..] == b[1..]
    ensures LexBefore(a, b) <==> LexBefore(a[1..], b[1..])
  {
    var x, y := a[1..], b[1..];
    assert a == [a[0]] + x && b == [a[0]] + y;
    if |a| < |b| {
      assert b[..|a|] == [a[0]] + y[..|x|];
    }
    forall p | 0 <= p < |x| && p < |y| ensures LexDifferAt(x, y, p) <==> LexDifferAt(a, b, p + 1) {
      assert a[..p + 1] == [a[0]] + x[..p] && b[..p + 1] == [a[0]] + y[..p];
      assert x[..p] == a[..p + 1][1..] && y[..p] == b[..p + 1][1..];
    }
    if p :| 0 <= p < |a| && p < |b| && LexDifferAt(a, b, p) {
      assert p > 0;
      assert LexDifferAt(x, y, p - 1);
    }
  }

  // ---------------------------------------------------------------- lists without repetition

  ghost predicate NoDuplicates<T>(s: seq<T>)
  {
    forall i, j :: 0 <= i < j < |s| ==> s[i] != s[j]
  }

  lemma {:induction false} NoDuplicatesCounts<T(!new)>(s: seq<T>)
    ensures NoDuplicates(s) <==> forall x :: multiset(s)[x] <= 1
  {
    if s != [] {
      var n := |s| - 1;
      NoDuplicatesCounts(s[..n]);
      assert s == s[..n] + [s[n]];
      if NoDuplicates(s) {
        assert s[n] !in s[..n];
      }
      if forall x :: multiset(s)[x] <= 1 {
        assert forall x :: multiset(s[..n])[x] <= multiset(s)[x];
        assert multiset(s)[s[n]] == multiset(s[..n])[s[n]] + 1;
        assert s[n] !in s[..n];
        forall i, j | 0 <= i < j < |s| ensures s[i] != s[j] {
          assert s[i] == s[..n][i];
          if j < n { assert s[j] == s[..n][j]; }
        }
      }
    }
  }

  /**
   Lists of one size, the first without repetition and contained in the second, hold the same elements equally often.
   */
  lemma {:induction false} SameElements<T>(a: seq<T>, b: seq<T>)
    requires NoDuplicates(a) && |a| == |b| && forall i :: 0 <= i < |a| ==> a[i] in b
    ensures multiset(a) == multiset(b)
    decreases |a|
  {
    if a == [] {
      assert b == [];
    } else {
      var k :| 0 <= k < |b| && b[k] == a[0];
      var rest := b[..k] + b[k + 1..];
      assert b == b[..k] + [b[k]] + b[k + 1..] && a == [a[0]] + a[1..];
      forall i | 0 <= i < |a[1..]| ensures a[1..][i] in rest {
        assert a[i + 1] in b && a[i + 1] != a[0];
      }
      SameElements(a[1..], rest);
    }
  }
}
