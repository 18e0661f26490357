/** Byte strings, 32-byte digests and what it means to exhibit a hash collision. */
module Octets {

  newtype Byte = b: int | 0 <= b < 256

  type Bytes = seq<Byte>

  const DIGEST_SIZE: nat := 32

  type Digest = d: Bytes | |d| == DIGEST_SIZE witness seq(DIGEST_SIZE, _ => 0)

  /** SHA-256 is a parameter everywhere: every result holds for every function of this type. */
  type Hash = Bytes -> Digest

  /** Two different preimages, one from each of two given finite sets, have the same digest. */
  ghost predicate Collide(H: Hash, a: set<Bytes>, b: set<Bytes>)
  {
    exists x, y :: x in a && y in b && x != y && H(x) == H(y)
  }

  lemma CollideMono(H: Hash, a: set<Bytes>, b: set<Bytes>, a': set<Bytes>, b': set<Bytes>)
    requires Collide(H, a, b) && a <= a' && b <= b'
    ensures Collide(H, a', b')
  {
    var x, y :| x in a && y in b && x != y && H(x) == H(y);
    assert x in a' && y in b';
  }

  /** Equal digests of two known preimages: either the preimages are equal or they collide. */
  lemma EqualOrCollide(H: Hash, x: Bytes, y: Bytes, a: set<Bytes>, b: set<Bytes>)
    requires H(x) == H(y) && x in a && y in b
    ensures x == y || Collide(H, a, b)
  {
  }

  /** The position of the first NUL, or the length when there is none. */
  function FirstNul(s: Bytes): (i: nat)
    ensures i <= |s| && (0 in s ==> i < |s| && s[i] == 0)
  {
    if s == [] || s[0] == 0 then 0 else 1 + FirstNul(s[1..])
  }

  lemma {:induction false} FirstNulAfter(a: Bytes, x: Bytes)
    requires 0 !in a
    ensures FirstNul(a + [0] + x) == |a|
  {
    var s := a + [0] + x;
    if a != [] {
      FirstNulAfter(a[1..], x);
      assert s[1..] == a[1..] + [0] + x;
    }
  }

  /** A NUL-free field is delimited by the first NUL after it. */
  lemma NulDelimits(a: Bytes, x: Bytes, b: Bytes, y: Bytes)
    requires 0 !in a && 0 !in b
    requires a + [0] + x == b + [0] + y
    ensures a == b && x == y
  {
    FirstNulAfter(a, x);
    FirstNulAfter(b, y);
    var p := a + [0] + x;
    assert p[..|a|] == a && p[|a| + 1..] == x;
    assert (b + [0] + y)[..|b|] == b && (b + [0] + y)[|b| + 1..] == y;
  }

  /** The bytes of an ASCII text. */
  function Ascii(s: string): (b: Bytes)
    requires forall i :: 0 <= i < |s| ==> s[i] < 128 as char
    ensures |b| == |s|
  {
    seq(|s|, i requires 0 <= i < |s| => (s[i] as int) as Byte)
  }
}
