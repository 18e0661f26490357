/**
 Inclusion proofs over the trees of module Merkle: the recursive prover, the level-by-level prover,
 and the iterative (fn, sn) verifier of section 2.1.3.2 of RFC 9162.
 */
module Inclusion {
  import opened Basics
  import opened Octets
  import opened Merkle

  /** A right shift by one. Stated by what it satisfies, so that proofs meet no division. */
  function Half(i: int): (h: int)
    ensures 2 * h <= i <= 2 * h + 1
    decreases if i < 0 then -i else i
  {
    if i >= 2 then 1 + Half(i - 2) else if i >= 0 then 0 else if i == -1 then -1 else Half(i + 2) - 1
  }

  lemma HalfIsShift(i: int)
    ensures Half(i) == i / 2 && (Odd(i) <==> i % 2 == 1)
  {
  }

  /** The low bit is set. */
  predicate Odd(i: int)
  {
    i == 2 * Half(i) + 1
  }

  // ---------------------------------------------------------------- the two provers

  /** Siblings from leaf to root, built by recursion on the split. */
  function Path(s: Scheme, ls: seq<Digest>, m: nat): seq<Digest>
    requires m < |ls|
    decreases |ls|
  {
    if |ls| == 1 then [] else
      var k := Split(|ls|);
      if m < k then Path(s, ls[..k], m) + [Mth(s, ls[k..])]
      else Path(s, ls[k..], m - k) + [Mth(s, ls[..k])]
  }

  /** One step of a level proof: the sibling and the side it stands on. */
  datatype Step = Step(sibling: Digest, right: bool)

  /** The step a level contributes for position i; a promoted node contributes none. */
  function StepAt(level: seq<Digest>, i: nat): seq<Step>
    requires i < |level|
  {
    if !Odd(i) && i + 1 < |level| then [Step(level[i + 1], true)]
    else if Odd(i) then [Step(level[i - 1], false)]
    else []
  }

  function LevelProof(s: Scheme, ls: seq<Digest>, i: nat): seq<Step>
    requires i < |ls|
    decreases |ls|
  {
    if |ls| == 1 then [] else StepAt(ls, i) + LevelProof(s, Level(s, ls), Half(i))
  }

  /** All levels, leaves first, root level last. */
  function Levels(s: Scheme, ls: seq<Digest>): (r: seq<seq<Digest>>)
    requires |ls| > 0
    ensures |r| > 0 && r[0] == ls
    decreases |ls|
  {
    if |ls| == 1 then [ls] else [ls] + Levels(s, Level(s, ls))
  }

  method BuildTree(s: Scheme, leaves: seq<Digest>) returns (root: Digest, levels: seq<seq<Digest>>)
    requires |leaves| > 0
    ensures root == Mth(s, leaves)
    ensures levels == Levels(s, leaves)
  {
    levels := [leaves];
    var cur := leaves;
    ghost var below := [];
    while |cur| > 1
      invariant |cur| > 0 && levels == below + [cur]
      invariant BottomUp(s, cur) == BottomUp(s, leaves)
      invariant below + Levels(s, cur) == Levels(s, leaves)
      decreases |cur|
    {
      var nxt := PairUp(s, cur);
      Associative(below, [cur], Levels(s, nxt));
      below := below + [cur];
      levels := levels + [nxt];
      cur := nxt;
    }
    root := cur[0];
    BottomUpIsMth(s, leaves);
  }

  method InclusionProof(s: Scheme, leaves: seq<Digest>, levels: seq<seq<Digest>>, index: nat)
    returns (proof: seq<Step>)
    requires |leaves| > 0 && levels == Levels(s, leaves) && index < |leaves|
    ensures proof == LevelProof(s, leaves, index)
  {
    proof := [];
    var i, n := index, 0;
    ghost var cur := leaves;
    while n < |levels| - 1
      invariant n < |levels| && 0 <= i < |cur|
      invariant levels[n..] == Levels(s, cur)
      invariant proof + LevelProof(s, cur, i) == LevelProof(s, leaves, index)
    {
      var lvl := levels[n];
      assert lvl == cur;
      Associative(proof, StepAt(cur, i), LevelProof(s, Level(s, cur), Half(i)));
      ghost var before := proof;
      if !Odd(i) && i + 1 < |lvl| {
        proof := proof + [Step(lvl[i + 1], true)];
      } else if Odd(i) {
        proof := proof + [Step(lvl[i - 1], false)];
      }
      assert proof == before + StepAt(cur, i);
      assert levels[n + 1..] == levels[n..][1..];
      i, n, cur := Half(i), n + 1, Level(s, cur);
    }
  }

  function FoldSteps(s: Scheme, h: Bytes, proof: seq<Step>): Bytes
    decreases |proof|
  {
    if proof == [] then h else
      FoldSteps(s, if proof[0].right then s.Node(h, proof[0].sibling) else s.Node(proof[0].sibling, h), proof[1..])
  }

  method ApplyInclusion(s: Scheme, leaf: Bytes, proof: seq<Step>) returns (h: Bytes)
    ensures h == FoldSteps(s, leaf, proof)
  {
    h := leaf;
    for n := 0 to |proof|
      invariant FoldSteps(s, leaf, proof) == FoldSteps(s, h, proof[n..])
    {
      h := if proof[n].right then s.Node(h, proof[n].sibling) else s.Node(proof[n].sibling, h);
      assert proof[n..][1..] == proof[n + 1..];
    }
  }

  function Siblings(proof: seq<Step>): seq<Digest>
  {
    seq(|proof|, i requires 0 <= i < |proof| => proof[i].sibling)
  }

  lemma StepPrefix(ls: seq<Digest>, h: nat, i: nat)
    requires i < 2 * h <= |ls|
    ensures StepAt(ls[..2 * h], i) == StepAt(ls, i)
  {
  }

  lemma StepSuffix(ls: seq<Digest>, h: nat, i: nat)
    requires 2 * h <= i < |ls|
    ensures StepAt(ls[2 * h..], i - 2 * h) == StepAt(ls, i)
  {
  }

  /** What LevelSplit gives: h nodes above the left half, the rest above the right one. */
  predicate SplitAt(s: Scheme, ls: seq<Digest>, h: nat)
  {
    var up := Level(s, ls);
    && |ls| > 2 && 0 < h < |up| && h == Split(|up|) && Split(|ls|) == 2 * h
    && up[..h] == Level(s, ls[..2 * h]) && up[h..] == Level(s, ls[2 * h..])
  }

  predicate PathStep(s: Scheme, ls: seq<Digest>, i: nat, j: nat)
    requires i < |ls| && j < |Level(s, ls)|
  {
    Path(s, ls, i) == Siblings(StepAt(ls, i)) + Path(s, Level(s, ls), j)
  }

  /** A path through one half and the path one level up end in the same sibling. */
  lemma PathLeft(s: Scheme, ls: seq<Digest>, i: nat, j: nat, h: nat)
    requires SplitAt(s, ls, h) && i < 2 * h && j < h && PathStep(s, ls[..2 * h], i, j)
    ensures PathStep(s, ls, i, j)
  {
    var up, left, right := Level(s, ls), ls[..2 * h], ls[2 * h..];
    var own := Siblings(StepAt(ls, i));
    calc {
      Path(s, ls, i);
      { StepPrefix(ls, h, i); }
      (own + Path(s, up[..h], j)) + [Mth(s, right)];
      { Associative(own, Path(s, up[..h], j), [Mth(s, right)]); LevelKeepsMth(s, right); }
      own + (Path(s, up[..h], j) + [Mth(s, up[h..])]);
      own + Path(s, up, j);
    }
  }

  lemma PathRight(s: Scheme, ls: seq<Digest>, i: nat, j: nat, h: nat)
    requires SplitAt(s, ls, h) && 2 * h <= i < |ls| && h <= j < |Level(s, ls)|
    requires PathStep(s, ls[2 * h..], i - 2 * h, j - h)
    ensures PathStep(s, ls, i, j)
  {
    var up, left, right := Level(s, ls), ls[..2 * h], ls[2 * h..];
    var own := Siblings(StepAt(right, i - 2 * h));
    assert own == Siblings(StepAt(ls, i)) by { StepSuffix(ls, h, i); }
    PathUnfolds(s, ls, i, 2 * h);
    PathUnfolds(s, up, j, h);
    LevelKeepsMth(s, left);
    Associative(own, Path(s, up[h..], j - h), [Mth(s, left)]);
  }

  lemma PathUnfolds(s: Scheme, ls: seq<Digest>, m: nat, k: nat)
    requires |ls| > 1 && k == Split(|ls|) <= m < |ls|
    ensures Path(s, ls, m) == Path(s, ls[k..], m - k) + [Mth(s, ls[..k])]
  {
  }

  lemma PathSmall(s: Scheme, ls: seq<Digest>, i: nat)
    requires i < |ls| <= 2
    ensures Path(s, ls, i) == Siblings(StepAt(ls, i)) + Path(s, Level(s, ls), 0)
  {
    if |ls| == 1 {
      assert Level(s, ls) == ls;
    } else {
      assert Path(s, ls, i) == [ls[1 - i]];
    }
  }

  /** One level of the recursive path: its first sibling is the level's own, the rest is the next level's path. */
  lemma {:induction false} PathByLevel(s: Scheme, ls: seq<Digest>, i: nat, j: nat)
    requires i < |ls| && 2 * j <= i <= 2 * j + 1
    ensures j < |Level(s, ls)| && PathStep(s, ls, i, j)
    decreases |ls|
  {
    if |ls| <= 2 {
      PathSmall(s, ls, i);
    } else {
      var h := LevelSplit(s, ls);
      if j < h {
        PathByLevel(s, ls[..2 * h], i, j);
        PathLeft(s, ls, i, j, h);
      } else {
        PathByLevel(s, ls[2 * h..], i - 2 * h, j - h);
        PathRight(s, ls, i, j, h);
      }
    }
  }

  /** The level-by-level proof lists exactly the recursive path and folds to the tree hash. */
  lemma {:induction false} ProversAgree(s: Scheme, ls: seq<Digest>, i: nat)
    requires i < |ls|
    ensures Siblings(LevelProof(s, ls, i)) == Path(s, ls, i)
    ensures FoldSteps(s, ls[i], LevelProof(s, ls, i)) == Mth(s, ls)
    decreases |ls|
  {
    if |ls| > 1 {
      var up, j := Level(s, ls), Half(i);
      PathByLevel(s, ls, i, j);
      LevelKeepsMth(s, ls);
      ProversAgree(s, up, j);
      SiblingsConcat(StepAt(ls, i), LevelProof(s, up, j));
      FoldOneLevel(s, ls, i, LevelProof(s, up, j));
    }
  }

  lemma SiblingsConcat(a: seq<Step>, b: seq<Step>)
    ensures Siblings(a + b) == Siblings(a) + Siblings(b)
  {
  }

  /** Folding a level's own step takes the level's element to the next level's. */
  lemma FoldOneLevel(s: Scheme, ls: seq<Digest>, i: nat, rest: seq<Step>)
    requires i < |ls|
    ensures FoldSteps(s, ls[i], StepAt(ls, i) + rest) == FoldSteps(s, Level(s, ls)[Half(i)], rest)
  {
    LevelAt(s, ls, Half(i));
    var step := StepAt(ls, i);
    if step != [] {
      assert (step + rest)[1..] == rest;
    } else {
      assert step + rest == rest;
    }
  }

  // ---------------------------------------------------------------- the (fn, sn) verifier

  /** What the verifier computes from position fn of sn + 1 nodes; None is a rejection. */
  function Climb(s: Scheme, r: Bytes, fn: int, sn: int, path: seq<Bytes>): Option<Bytes>
    decreases |path|, if fn < 0 then -fn else fn
  {
    if sn == 0 then (if path == [] then Some(r) else None)
    else if !Odd(fn) && fn == sn then Climb(s, r, Half(fn), Half(sn), path)
    else if path == [] then None
    else Climb(s, Combine(s, r, fn, path[0]), Half(fn), Half(sn), path[1..])
  }

  function Combine(s: Scheme, r: Bytes, fn: int, p: Bytes): Digest
  {
    if Odd(fn) then s.Node(p, r) else s.Node(r, p)
  }

  lemma {:induction false} ClimbStuck(s: Scheme, r: Bytes, fn: int, sn: int)
    requires sn != 0
    ensures Climb(s, r, fn, sn, []) == None
    decreases if fn < 0 then -fn else fn
  {
    if !Odd(fn) && fn == sn {
      ClimbStuck(s, r, Half(fn), Half(sn));
    }
  }

  /** What it is for a proof to be accepted. */
  predicate Accepts(s: Scheme, leaf: Bytes, index: int, size: int, path: seq<Bytes>, root: Bytes)
  {
    index < size && Climb(s, leaf, index, size - 1, path) == Some(root)
  }

  /**
   The iterative verifier. Index and size are whatever integers the proof carries; shifts and the low
   bit are those of two's complement, which halving and remainder by two are.
   */
  method VerifyInclusion(s: Scheme, leaf: Bytes, index: int, size: int, path: seq<Bytes>, root: Bytes)
    returns (ok: bool)
    ensures ok <==> Accepts(s, leaf, index, size, path, root)
  {
    if index >= size { return false; }
    var fn, sn, r := index, size - 1, leaf;
    for n := 0 to |path|
      invariant Climb(s, leaf, index, size - 1, path) == Climb(s, r, fn, sn, path[n..])
    {
      var p := path[n];
      assert path[n..][0] == p && path[n..][1..] == path[n + 1..];
      if sn == 0 { return false; }
      if Odd(fn) || fn == sn {
        ghost var r0 := r;
        r := s.Node(p, r);
        if !Odd(fn) {
          while !Odd(fn) && fn != 0
            invariant fn == sn && sn != 0
            invariant Climb(s, leaf, index, size - 1, path) == Climb(s, r0, fn, sn, path[n..])
            decreases if fn < 0 then -fn else fn
          {
            fn := Half(fn); sn := Half(sn);
          }
        }
      } else {
        r := s.Node(r, p);
      }
      fn := Half(fn); sn := Half(sn);
    }
    assert path[|path|..] == [];
    if sn != 0 { ClimbStuck(s, r, fn, sn); }
    return sn == 0 && r == root;
  }

  // ---------------------------------------------------------------- completeness

  /** One level of an honest climb: the level's own sibling takes its element to the next level's. */
  lemma ClimbOneLevel(s: Scheme, ls: seq<Digest>, i: nat, rest: seq<Digest>)
    requires i < |ls| && |ls| > 1
    ensures Half(i) < |Level(s, ls)|
    ensures Climb(s, ls[i], i, |ls| - 1, Siblings(StepAt(ls, i)) + rest)
         == Climb(s, Level(s, ls)[Half(i)], Half(i), |Level(s, ls)| - 1, rest)
  {
    LevelSize(s, ls, i);
    LevelAt(s, ls, Half(i));
    var step := Siblings(StepAt(ls, i));
    if step != [] {
      assert (step + rest)[0] == step[0] && (step + rest)[1..] == rest;
    } else {
      assert step + rest == rest;
    }
  }

  /** The recursively built path passes the iterative verifier, for every list and every index. */
  lemma {:induction false} InclusionComplete(s: Scheme, ls: seq<Digest>, i: nat)
    requires i < |ls|
    ensures Accepts(s, ls[i], i, |ls|, Path(s, ls, i), Mth(s, ls))
    decreases |ls|
  {
    if |ls| > 1 {
      var up := Level(s, ls);
      PathByLevel(s, ls, i, Half(i));
      LevelKeepsMth(s, ls);
      InclusionComplete(s, up, Half(i));
      ClimbOneLevel(s, ls, i, Path(s, up, Half(i)));
    }
  }

  // ---------------------------------------------------------------- soundness

  /** The node preimages of one level's pairs. */
  function PairPre(s: Scheme, ls: seq<Digest>): set<Bytes>
  {
    if |ls| < 2 then {} else {s.NodePre(ls[0], ls[1])} + PairPre(s, ls[2..])
  }

  /** The node preimages of the whole tree, level by level. */
  function LevelPre(s: Scheme, ls: seq<Digest>): set<Bytes>
    decreases |ls|
  {
    if |ls| < 2 then {} else PairPre(s, ls) + LevelPre(s, Level(s, ls))
  }

  lemma {:induction false} PairPreAt(s: Scheme, ls: seq<Digest>, j: nat)
    requires 2 * j + 1 < |ls|
    ensures s.NodePre(ls[2 * j], ls[2 * j + 1]) in PairPre(s, ls)
  {
    if j > 0 {
      PairPreAt(s, ls[2..], j - 1);
    }
  }

  lemma LevelSize(s: Scheme, ls: seq<Digest>, i: nat)
    requires i < |ls|
    ensures |Level(s, ls)| - 1 == Half(|ls| - 1) && Half(i) < |Level(s, ls)|
    ensures !Odd(i) && i == |ls| - 1 ==> Level(s, ls)[Half(i)] == ls[i]
  {
    LevelAt(s, ls, Half(i));
  }

  /** The preimages the verifier hashes. */
  function ClimbPre(s: Scheme, r: Bytes, fn: int, sn: int, path: seq<Bytes>): set<Bytes>
    decreases |path|, if fn < 0 then -fn else fn
  {
    if sn == 0 then {}
    else if !Odd(fn) && fn == sn then ClimbPre(s, r, Half(fn), Half(sn), path)
    else if path == [] then {}
    else {StepPre(s, r, fn, path[0])} + ClimbPre(s, Combine(s, r, fn, path[0]), Half(fn), Half(sn), path[1..])
  }

  function StepPre(s: Scheme, r: Bytes, i: int, p: Bytes): Bytes
  {
    if Odd(i) then s.NodePre(p, r) else s.NodePre(r, p)
  }

  /** A verifier step that reaches a known node started from one of that node's two children. */
  lemma StepSound(s: Scheme, r: Bytes, fn: int, p: Bytes, l: Digest, l': Digest, tree: set<Bytes>)
    requires |r| == DIGEST_SIZE && s.NodePre(l, l') in tree
    requires Combine(s, r, fn, p) == s.Node(l, l')
    ensures r == (if Odd(fn) then l' else l) || Collide(s.H, tree, {StepPre(s, r, fn, p)})
  {
    EqualOrCollide(s.H, s.NodePre(l, l'), StepPre(s, r, fn, p), tree, {StepPre(s, r, fn, p)});
    if s.NodePre(l, l') == StepPre(s, r, fn, p) {
      if Odd(fn) {
        s.NodePreInjective(l, l', p, r);
      } else {
        s.NodePreInjective(l, l', r, p);
      }
    }
  }

  lemma LevelStepSound(s: Scheme, r: Bytes, ls: seq<Digest>, i: nat, p: Bytes, tree: set<Bytes>, above: set<Bytes>)
    requires i < |ls| && |r| == DIGEST_SIZE && (Odd(i) || i != |ls| - 1) && PairPre(s, ls) <= tree
    requires Half(i) < |Level(s, ls)|
    requires Combine(s, r, i, p) == Level(s, ls)[Half(i)] || Collide(s.H, tree, above)
    ensures r == ls[i] || Collide(s.H, tree, {StepPre(s, r, i, p)} + above)
  {
    var j, here := Half(i), StepPre(s, r, i, p);
    if Collide(s.H, tree, above) {
      CollideMono(s.H, tree, above, tree, {here} + above);
    } else {
      LevelAt(s, ls, j);
      PairPreAt(s, ls, j);
      StepSound(s, r, i, p, ls[2 * j], ls[2 * j + 1], tree);
      if r != ls[i] { CollideMono(s.H, tree, {here}, tree, {here} + above); }
    }
  }

  lemma {:induction false} SoundWithin(s: Scheme, r: Bytes, ls: seq<Digest>, i: nat, path: seq<Bytes>, tree: set<Bytes>)
    requires i < |ls| && |r| == DIGEST_SIZE && LevelPre(s, ls) <= tree
    requires Climb(s, r, i, |ls| - 1, path) == Some(BottomUp(s, ls))
    ensures r == ls[i] || Collide(s.H, tree, ClimbPre(s, r, i, |ls| - 1, path))
    decreases |ls|
  {
    if |ls| > 1 {
      var up, j := Level(s, ls), Half(i);
      LevelSize(s, ls, i);
      if !Odd(i) && i == |ls| - 1 {
        SoundWithin(s, r, up, j, path, tree);
      } else {
        var r' := Combine(s, r, i, path[0]);
        SoundWithin(s, r', up, j, path[1..], tree);
        LevelStepSound(s, r, ls, i, path[0], tree, ClimbPre(s, r', j, |up| - 1, path[1..]));
      }
    }
  }

  /** A step from more bytes than two digests hold hashes what no node of a tree hashes. */
  lemma LongStep(s: Scheme, r: Bytes, ls: seq<Digest>, i: nat, p: Bytes, tree: set<Bytes>, above: set<Bytes>)
    requires i < |ls| && |r| > 2 * DIGEST_SIZE && (Odd(i) || i != |ls| - 1) && PairPre(s, ls) <= tree
    requires Half(i) < |Level(s, ls)|
    requires Combine(s, r, i, p) == Level(s, ls)[Half(i)] || Collide(s.H, tree, above)
    ensures Collide(s.H, tree, {StepPre(s, r, i, p)} + above)
  {
    var j, here := Half(i), StepPre(s, r, i, p);
    if Collide(s.H, tree, above) {
      CollideMono(s.H, tree, above, tree, {here} + above);
    } else {
      LevelAt(s, ls, j);
      PairPreAt(s, ls, j);
      assert |here| != |s.NodePre(ls[2 * j], ls[2 * j + 1])|;
      EqualOrCollide(s.H, s.NodePre(ls[2 * j], ls[2 * j + 1]), here, tree, {here} + above);
    }
  }

  /** An accepted leaf longer than two digests exhibits a collision. */
  lemma {:induction false} LongLeafCollides(
      s: Scheme, r: Bytes, ls: seq<Digest>, i: nat, path: seq<Bytes>, tree: set<Bytes>)
    requires i < |ls| && |r| > 2 * DIGEST_SIZE && LevelPre(s, ls) <= tree
    requires Climb(s, r, i, |ls| - 1, path) == Some(BottomUp(s, ls))
    ensures Collide(s.H, tree, ClimbPre(s, r, i, |ls| - 1, path))
    decreases |ls|
  {
    if |ls| > 1 {
      var up, j := Level(s, ls), Half(i);
      LevelSize(s, ls, i);
      if !Odd(i) && i == |ls| - 1 {
        LongLeafCollides(s, r, up, j, path, tree);
      } else {
        var r' := Combine(s, r, i, path[0]);
        SoundWithin(s, r', up, j, path[1..], tree);
        LongStep(s, r, ls, i, path[0], tree, ClimbPre(s, r', j, |up| - 1, path[1..]));
      }
    }
  }

  /** A length the position of a leaf can be trusted for: a digest's, or more than two digests'. */
  predicate SoundLength(n: nat)
  {
    n == DIGEST_SIZE || n > 2 * DIGEST_SIZE
  }

  /** An accepted leaf is the list's element, or a node the verifier hashed collides with a node of the tree. */
  ghost predicate Positioned(s: Scheme, r: Bytes, ls: seq<Digest>, i: nat, path: seq<Bytes>)
    requires i < |ls|
  {
    r == ls[i] || Collide(s.H, LevelPre(s, ls), ClimbPre(s, r, i, |ls| - 1, path))
  }

  /**
   Position soundness: an accepted leaf of 32 bytes, or of more than 64, at index i is the list's element i, or a node
   the verifier hashed collides with a node of the tree.
   */
  lemma InclusionSound(s: Scheme, r: Bytes, ls: seq<Digest>, i: nat, path: seq<Bytes>)
    requires i < |ls| && SoundLength(|r|)
    requires Accepts(s, r, i, |ls|, path, Mth(s, ls))
    ensures Positioned(s, r, ls, i, path)
  {
    BottomUpIsMth(s, ls);
    if |r| == DIGEST_SIZE {
      SoundWithin(s, r, ls, i, path, LevelPre(s, ls));
    } else {
      LongLeafCollides(s, r, ls, i, path, LevelPre(s, ls));
    }
  }

  // ---------------------------------------------------------------- the proof itself

  /** An accepted proof has as many siblings as the honest one: none is missing, and nothing follows the last. */
  lemma {:induction false} PathLength(s: Scheme, r: Bytes, ls: seq<Digest>, i: nat, path: seq<Bytes>)
    requires i < |ls| && Climb(s, r, i, |ls| - 1, path).Some?
    ensures |path| == |Path(s, ls, i)|
    decreases |ls|
  {
    if |ls| > 1 {
      var up, j := Level(s, ls), Half(i);
      LevelSize(s, ls, i);
      PathByLevel(s, ls, i, j);
      if !Odd(i) && i == |ls| - 1 {
        assert StepAt(ls, i) == [];
        PathLength(s, r, up, j, path);
      } else {
        assert |StepAt(ls, i)| == 1;
        PathLength(s, Combine(s, r, i, path[0]), up, j, path[1..]);
      }
    }
  }

  /** A verifier step from a known child to its parent used the other child, or collides. */
  lemma SiblingSound(s: Scheme, ls: seq<Digest>, i: nat, p: Bytes, tree: set<Bytes>)
    requires i < |ls| && (Odd(i) || i != |ls| - 1) && PairPre(s, ls) <= tree && Half(i) < |Level(s, ls)|
    requires Combine(s, ls[i], i, p) == Level(s, ls)[Half(i)]
    ensures |StepAt(ls, i)| == 1
    ensures p == StepAt(ls, i)[0].sibling || Collide(s.H, tree, {StepPre(s, ls[i], i, p)})
  {
    var j, here := Half(i), StepPre(s, ls[i], i, p);
    LevelAt(s, ls, j);
    PairPreAt(s, ls, j);
    var l, l' := ls[2 * j], ls[2 * j + 1];
    EqualOrCollide(s.H, s.NodePre(l, l'), here, tree, {here});
    if s.NodePre(l, l') == here {
      if Odd(i) { s.NodePreInjective(l, l', p, ls[i]); } else { s.NodePreInjective(l, l', ls[i], p); }
    }
  }

  lemma {:induction false} PathWithin(s: Scheme, ls: seq<Digest>, i: nat, path: seq<Bytes>, tree: set<Bytes>)
    requires i < |ls| && LevelPre(s, ls) <= tree
    requires Climb(s, ls[i], i, |ls| - 1, path) == Some(BottomUp(s, ls))
    ensures path == Path(s, ls, i) || Collide(s.H, tree, ClimbPre(s, ls[i], i, |ls| - 1, path))
    decreases |ls|, 1
  {
    if |ls| > 1 {
      var up, j := Level(s, ls), Half(i);
      LevelSize(s, ls, i);
      PathByLevel(s, ls, i, j);
      if !Odd(i) && i == |ls| - 1 {
        assert Siblings(StepAt(ls, i)) + Path(s, up, j) == Path(s, up, j);
        PathWithin(s, up, j, path, tree);
      } else {
        PathStepWithin(s, ls, i, path, tree);
      }
    }
  }

  lemma PathStepWithin(s: Scheme, ls: seq<Digest>, i: nat, path: seq<Bytes>, tree: set<Bytes>)
    requires i < |ls| && |ls| > 1 && LevelPre(s, ls) <= tree && (Odd(i) || i != |ls| - 1)
    requires Half(i) < |Level(s, ls)| && |Level(s, ls)| - 1 == Half(|ls| - 1) && PathStep(s, ls, i, Half(i))
    requires Climb(s, ls[i], i, |ls| - 1, path) == Some(BottomUp(s, ls))
    ensures path == Path(s, ls, i) || Collide(s.H, tree, ClimbPre(s, ls[i], i, |ls| - 1, path))
    decreases |ls|, 0
  {
    var up, j := Level(s, ls), Half(i);
    var r', all := Combine(s, ls[i], i, path[0]), ClimbPre(s, ls[i], i, |ls| - 1, path);
    var above := ClimbPre(s, r', j, |up| - 1, path[1..]);
    SoundWithin(s, r', up, j, path[1..], tree);
    if Collide(s.H, tree, above) {
      CollideMono(s.H, tree, above, tree, all);
    } else {
      PathWithin(s, up, j, path[1..], tree);
      SiblingSound(s, ls, i, path[0], tree);
      if Collide(s.H, tree, {StepPre(s, ls[i], i, path[0])}) {
        CollideMono(s.H, tree, {StepPre(s, ls[i], i, path[0])}, tree, all);
      } else {
        assert path == [path[0]] + path[1..];
        assert Siblings(StepAt(ls, i)) == [StepAt(ls, i)[0].sibling];
      }
    }
  }

  /**
   Acceptance, exactly: a 32-byte leaf and a path are accepted at an index below the size if and only if they are the
   list's element and its honest path; anything else that is accepted exhibits a collision. No index at or above the
   size is accepted.
   */
  lemma AcceptsExactly(s: Scheme, r: Bytes, ls: seq<Digest>, i: nat, path: seq<Bytes>)
    requires |ls| > 0 && |r| == DIGEST_SIZE
    ensures i >= |ls| ==> !Accepts(s, r, i, |ls|, path, Mth(s, ls))
    ensures i < |ls| && r == ls[i] && path == Path(s, ls, i) ==> Accepts(s, r, i, |ls|, path, Mth(s, ls))
    ensures i < |ls| && Accepts(s, r, i, |ls|, path, Mth(s, ls)) ==>
      || (r == ls[i] && path == Path(s, ls, i))
      || Collide(s.H, LevelPre(s, ls), ClimbPre(s, r, i, |ls| - 1, path))
  {
    if i < |ls| {
      InclusionComplete(s, ls, i);
      if Accepts(s, r, i, |ls|, path, Mth(s, ls)) {
        InclusionSound(s, r, ls, i, path);
        BottomUpIsMth(s, ls);
        if r == ls[i] { PathWithin(s, ls, i, path, LevelPre(s, ls)); }
      }
    }
  }

  // ---------------------------------------------------------------- the lengths at which position soundness fails

  /** An honest climb hashes only nodes of the tree. */
  lemma {:induction false} HonestPre(s: Scheme, ls: seq<Digest>, i: nat)
    requires i < |ls|
    ensures ClimbPre(s, ls[i], i, |ls| - 1, Path(s, ls, i)) <= LevelPre(s, ls)
    decreases |ls|
  {
    if |ls| > 1 {
      var up, j := Level(s, ls), Half(i);
      PathByLevel(s, ls, i, j);
      HonestPre(s, up, j);
      PreOneLevel(s, ls, i, Path(s, up, j));
    }
  }

  lemma PreOneLevel(s: Scheme, ls: seq<Digest>, i: nat, rest: seq<Digest>)
    requires i < |ls| && |ls| > 1 && Half(i) < |Level(s, ls)|
    requires ClimbPre(s, Level(s, ls)[Half(i)], Half(i), |Level(s, ls)| - 1, rest) <= LevelPre(s, Level(s, ls))
    ensures ClimbPre(s, ls[i], i, |ls| - 1, Siblings(StepAt(ls, i)) + rest) <= LevelPre(s, ls)
  {
    LevelSize(s, ls, i);
    if StepAt(ls, i) == [] {
      assert Siblings(StepAt(ls, i)) + rest == rest;
      PreNoStep(s, ls, i, rest);
    } else {
      var p := StepAt(ls, i)[0].sibling;
      assert Siblings(StepAt(ls, i)) == [p];
      PreOneStep(s, ls, i, p, rest);
    }
  }

  lemma PreNoStep(s: Scheme, ls: seq<Digest>, i: nat, rest: seq<Digest>)
    requires i < |ls| && |ls| > 1 && Half(i) < |Level(s, ls)| && |Level(s, ls)| - 1 == Half(|ls| - 1)
    requires !Odd(i) && i == |ls| - 1 && Level(s, ls)[Half(i)] == ls[i]
    requires ClimbPre(s, ls[i], Half(i), |Level(s, ls)| - 1, rest) <= LevelPre(s, Level(s, ls))
    ensures ClimbPre(s, ls[i], i, |ls| - 1, rest) <= LevelPre(s, ls)
  {
  }

  lemma PreOneStep(s: Scheme, ls: seq<Digest>, i: nat, p: Digest, rest: seq<Digest>)
    requires i < |ls| && |ls| > 1 && Half(i) < |Level(s, ls)| && |Level(s, ls)| - 1 == Half(|ls| - 1)
    requires StepAt(ls, i) != [] && p == StepAt(ls, i)[0].sibling
    requires ClimbPre(s, Level(s, ls)[Half(i)], Half(i), |Level(s, ls)| - 1, rest) <= LevelPre(s, Level(s, ls))
    ensures ClimbPre(s, ls[i], i, |ls| - 1, [p] + rest) <= LevelPre(s, ls)
  {
    var j := Half(i);
    LevelAt(s, ls, j);
    PairPreAt(s, ls, j);
    assert ([p] + rest)[1..] == rest;
    assert StepPre(s, ls[i], i, p) == s.NodePre(ls[2 * j], ls[2 * j + 1]);
    assert Combine(s, ls[i], i, p) == Level(s, ls)[j];
  }

  /** Two digests' bytes, cut elsewhere: L of them on the side of position i, the others on its sibling's. */
  lemma Recut(s: Scheme, i: nat, l: Digest, l': Digest, length: nat) returns (r: Bytes, p: Bytes)
    requires s.sep == [] && length <= 2 * DIGEST_SIZE
    ensures |r| == length && StepPre(s, r, i, p) == s.NodePre(l, l')
  {
    var both := l + l';
    var at := if Odd(i) then |both| - length else length;
    r, p := if Odd(i) then both[at..] else both[..at], if Odd(i) then both[..at] else both[at..];
    assert both == both[..at] + both[at..];
    assert s.NodePre(l, l') == s.tag + both;
    assert s.NodePre(both[..at], both[at..]) == s.tag + both;
  }

  /** At every index, for every length up to 64, a leaf is accepted on nothing but nodes of the tree. */
  lemma {:induction false} RecutLeafAccepted(s: Scheme, ls: seq<Digest>, i: nat, length: nat)
    returns (r: Bytes, path: seq<Bytes>)
    requires i < |ls| && |ls| > 1 && s.sep == [] && length <= 2 * DIGEST_SIZE
    ensures |r| == length && Climb(s, r, i, |ls| - 1, path) == Some(BottomUp(s, ls))
    ensures ClimbPre(s, r, i, |ls| - 1, path) <= LevelPre(s, ls)
    decreases |ls|
  {
    var up, j := Level(s, ls), Half(i);
    LevelSize(s, ls, i);
    if !Odd(i) && i == |ls| - 1 {
      r, path := RecutLeafAccepted(s, up, j, length);
    } else {
      var rest: seq<Bytes> := Path(s, up, j);
      r, path := RecutStep(s, ls, i, length, rest);
      InclusionComplete(s, up, j);
      BottomUpIsMth(s, up);
      HonestPre(s, up, j);
    }
  }

  lemma RecutStep(s: Scheme, ls: seq<Digest>, i: nat, length: nat, rest: seq<Bytes>)
    returns (r: Bytes, path: seq<Bytes>)
    requires i < |ls| && |ls| > 1 && s.sep == [] && length <= 2 * DIGEST_SIZE && (Odd(i) || i != |ls| - 1)
    ensures Half(i) < |Level(s, ls)| && |r| == length
    ensures Climb(s, r, i, |ls| - 1, path) == Climb(s, Level(s, ls)[Half(i)], Half(i), |Level(s, ls)| - 1, rest)
    ensures ClimbPre(s, r, i, |ls| - 1, path)
         <= PairPre(s, ls) + ClimbPre(s, Level(s, ls)[Half(i)], Half(i), |Level(s, ls)| - 1, rest)
  {
    var j := Half(i);
    LevelSize(s, ls, i);
    LevelAt(s, ls, j);
    PairPreAt(s, ls, j);
    var p;
    r, p := Recut(s, i, ls[2 * j], ls[2 * j + 1], length);
    path := [p] + rest;
    assert path[1..] == rest;
    assert Combine(s, r, i, p) == Level(s, ls)[j];
  }

  /** The tree itself hashes no two different nodes to one digest. */
  ghost predicate NoCollisionWithin(s: Scheme, ls: seq<Digest>)
  {
    !Collide(s.H, LevelPre(s, ls), LevelPre(s, ls))
  }

  /**
   The exact lengths: in a tree of two leaves or more without collisions of its own, at every index, all accepted leaves
   of a given length are in their position or exhibit a collision if and only if that length is 32 or more than 64.
   */
  lemma PositionSoundExactly(s: Scheme, ls: seq<Digest>, i: nat, length: nat)
    requires i < |ls| && |ls| > 1 && s.sep == [] && NoCollisionWithin(s, ls)
    ensures SoundLength(length) <==> forall r: Bytes, path: seq<Bytes> ::
      |r| == length && Accepts(s, r, i, |ls|, path, Mth(s, ls)) ==> Positioned(s, r, ls, i, path)
  {
    if SoundLength(length) {
      forall r: Bytes, path: seq<Bytes> | |r| == length && Accepts(s, r, i, |ls|, path, Mth(s, ls))
        ensures Positioned(s, r, ls, i, path)
      {
        InclusionSound(s, r, ls, i, path);
      }
    } else {
      var r, path := RecutLeafAccepted(s, ls, i, length);
      BottomUpIsMth(s, ls);
      assert Accepts(s, r, i, |ls|, path, Mth(s, ls));
      if Positioned(s, r, ls, i, path) {
        CollideMono(s.H, LevelPre(s, ls), ClimbPre(s, r, i, |ls| - 1, path), LevelPre(s, ls), LevelPre(s, ls));
      }
    }
  }

  // ---------------------------------------------------------------- membership for any claimed index and size

  /** The leaf hashes of a list of leaf preimages. */
  function Digests(H: Hash, pre: seq<Bytes>): (r: seq<Digest>)
    ensures |r| == |pre|
  {
    seq(|pre|, i requires 0 <= i < |pre| => H(pre[i]))
  }

  /** No leaf preimage can be read as a node preimage. */
  predicate LeafTyped(s: Scheme, pre: seq<Bytes>)
  {
    forall x :: x in pre ==> !(s.tag <= x)
  }

  /** The node preimages of the whole tree, by recursion on the split. */
  function TreePre(s: Scheme, ls: seq<Digest>): set<Bytes>
    requires |ls| > 0
  {
    if |ls| == 1 then {} else
      var k := Split(|ls|);
      {s.NodePre(Mth(s, ls[..k]), Mth(s, ls[k..]))} + TreePre(s, ls[..k]) + TreePre(s, ls[k..])
  }

  /** v is the hash of some subtree. */
  predicate IsSubtree(s: Scheme, ls: seq<Digest>, v: Bytes)
    requires |ls| > 0
  {
    v == Mth(s, ls) ||
    (|ls| > 1 && var k := Split(|ls|); IsSubtree(s, ls[..k], v) || IsSubtree(s, ls[k..], v))
  }

  function AllPre(s: Scheme, pre: seq<Bytes>): set<Bytes>
    requires |pre| > 0
  {
    TreePre(s, Digests(s.H, pre)) + set x | x in pre
  }

  /** Both halves of the leaves are leaf-typed and hash nothing that the whole does not. */
  lemma Halves(s: Scheme, pre: seq<Bytes>, k: nat)
    requires |pre| > 1 && k == Split(|pre|)
    ensures Digests(s.H, pre)[..k] == Digests(s.H, pre[..k]) && Digests(s.H, pre)[k..] == Digests(s.H, pre[k..])
    ensures AllPre(s, pre[..k]) <= AllPre(s, pre) && AllPre(s, pre[k..]) <= AllPre(s, pre)
    ensures LeafTyped(s, pre) ==> LeafTyped(s, pre[..k]) && LeafTyped(s, pre[k..])
  {
    assert forall x :: x in pre[..k] ==> x in pre;
    assert forall x :: x in pre[k..] ==> x in pre;
    assert Digests(s.H, pre)[..k] == Digests(s.H, pre[..k]) && Digests(s.H, pre)[k..] == Digests(s.H, pre[k..]);
  }

  /** A node hash that is a subtree hash has both of its arguments as subtree hashes. */
  lemma {:induction false} SubtreeOfNode(s: Scheme, pre: seq<Bytes>, l: Bytes, r: Bytes)
    requires |pre| > 0 && LeafTyped(s, pre)
    requires |l| == DIGEST_SIZE || |r| == DIGEST_SIZE
    requires IsSubtree(s, Digests(s.H, pre), s.Node(l, r))
    ensures (IsSubtree(s, Digests(s.H, pre), l) && IsSubtree(s, Digests(s.H, pre), r))
         || Collide(s.H, AllPre(s, pre), {s.NodePre(l, r)})
    decreases |pre|
  {
    var ls, x := Digests(s.H, pre), s.NodePre(l, r);
    if |pre| == 1 {
      assert pre[0] in pre && s.tag <= x;
      EqualOrCollide(s.H, pre[0], x, AllPre(s, pre), {x});
    } else {
      var k := Split(|pre|);
      Halves(s, pre, k);
      var left, right := Mth(s, ls[..k]), Mth(s, ls[k..]);
      if s.Node(l, r) == Mth(s, ls) {
        EqualOrCollide(s.H, s.NodePre(left, right), x, AllPre(s, pre), {x});
        if s.NodePre(left, right) == x {
          s.NodePreInjective(left, right, l, r);
          assert IsSubtree(s, ls[..k], l) && IsSubtree(s, ls[k..], r);
        }
      } else {
        var part := if IsSubtree(s, ls[..k], s.Node(l, r)) then pre[..k] else pre[k..];
        SubtreeOfNode(s, part, l, r);
        if Collide(s.H, AllPre(s, part), {x}) {
          CollideMono(s.H, AllPre(s, part), {x}, AllPre(s, pre), {x});
        }
      }
    }
  }

  /** Every value on an accepted climb is a subtree hash. */
  lemma {:induction false} ClimbInTree(s: Scheme, pre: seq<Bytes>, r: Bytes, fn: int, sn: int, path: seq<Bytes>)
    requires |pre| > 0 && LeafTyped(s, pre) && |r| == DIGEST_SIZE
    requires Climb(s, r, fn, sn, path) == Some(Mth(s, Digests(s.H, pre)))
    ensures IsSubtree(s, Digests(s.H, pre), r) || Collide(s.H, AllPre(s, pre), ClimbPre(s, r, fn, sn, path))
    decreases |path|, if fn < 0 then -fn else fn
  {
    if sn == 0 {
    } else if !Odd(fn) && fn == sn {
      ClimbInTree(s, pre, r, Half(fn), Half(sn), path);
    } else {
      var p, r', mine := path[0], Combine(s, r, fn, path[0]), ClimbPre(s, r, fn, sn, path);
      ClimbInTree(s, pre, r', Half(fn), Half(sn), path[1..]);
      if IsSubtree(s, Digests(s.H, pre), r') {
        var (l, rr) := if Odd(fn) then (p, r) else (r, p);
        SubtreeOfNode(s, pre, l, rr);
        if Collide(s.H, AllPre(s, pre), {s.NodePre(l, rr)}) {
          CollideMono(s.H, AllPre(s, pre), {s.NodePre(l, rr)}, AllPre(s, pre), mine);
        }
      } else {
        CollideMono(s.H, AllPre(s, pre), ClimbPre(s, r', Half(fn), Half(sn), path[1..]), AllPre(s, pre), mine);
      }
    }
  }

  /** A leaf-type hash that is a subtree hash is one of the leaves. */
  lemma {:induction false} LeafSubtree(s: Scheme, pre: seq<Bytes>, x: Bytes)
    requires |pre| > 0 && !(s.tag <= x)
    requires IsSubtree(s, Digests(s.H, pre), s.H(x))
    ensures s.H(x) in Digests(s.H, pre) || Collide(s.H, AllPre(s, pre), {x})
    decreases |pre|
  {
    var ls := Digests(s.H, pre);
    if |pre| > 1 {
      var k := Split(|pre|);
      Halves(s, pre, k);
      if s.H(x) == Mth(s, ls) {
        EqualOrCollide(s.H, s.NodePre(Mth(s, ls[..k]), Mth(s, ls[k..])), x, AllPre(s, pre), {x});
      } else {
        var part := if IsSubtree(s, ls[..k], s.H(x)) then pre[..k] else pre[k..];
        LeafSubtree(s, part, x);
        if Collide(s.H, AllPre(s, part), {x}) {
          CollideMono(s.H, AllPre(s, part), {x}, AllPre(s, pre), {x});
        }
      }
    }
  }

  /**
   Membership soundness: whatever index and size the proof claims, an accepted leaf-type hash is the
   hash of one of the listed preimages, or a collision among the hashed byte strings is exhibited.
   */
  lemma MembershipSound(s: Scheme, pre: seq<Bytes>, x: Bytes, index: int, size: int, path: seq<Bytes>)
    requires |pre| > 0 && LeafTyped(s, pre) && !(s.tag <= x)
    requires Accepts(s, s.H(x), index, size, path, Mth(s, Digests(s.H, pre)))
    ensures x in pre
         || Collide(s.H, AllPre(s, pre), {x} + ClimbPre(s, s.H(x), index, size - 1, path))
  {
    var climb := ClimbPre(s, s.H(x), index, size - 1, path);
    ClimbInTree(s, pre, s.H(x), index, size - 1, path);
    if Collide(s.H, AllPre(s, pre), climb) {
      CollideMono(s.H, AllPre(s, pre), climb, AllPre(s, pre), {x} + climb);
    } else {
      LeafSubtree(s, pre, x);
      if Collide(s.H, AllPre(s, pre), {x}) {
        CollideMono(s.H, AllPre(s, pre), {x}, AllPre(s, pre), {x} + climb);
      } else {
        var i :| 0 <= i < |pre| && Digests(s.H, pre)[i] == s.H(x);
        assert s.H(pre[i]) == s.H(x) && pre[i] in pre;
        EqualOrCollide(s.H, pre[i], x, AllPre(s, pre), {x} + climb);
      }
    }
  }

  // ---------------------------------------------------------------- what a root binds

  /** The preimage whose digest the root is. */
  function RootPre(s: Scheme, pre: seq<Bytes>): Bytes
    requires |pre| > 0
  {
    if |pre| == 1 then pre[0] else
      var ls, k := Digests(s.H, pre), Split(|pre|);
      s.NodePre(Mth(s, ls[..k]), Mth(s, ls[k..]))
  }

  lemma RootPreHashed(s: Scheme, pre: seq<Bytes>)
    requires |pre| > 0
    ensures RootPre(s, pre) in AllPre(s, pre) && s.H(RootPre(s, pre)) == Mth(s, Digests(s.H, pre))
    ensures |pre| > 1 ==> s.tag <= RootPre(s, pre)
  {
  }

  /** One preimage of two roots: the halves have equal roots. */
  lemma RootPreSplits(s: Scheme, p: seq<Bytes>, q: seq<Bytes>) returns (k: nat, k': nat)
    requires |p| > 1 && |q| > 1 && RootPre(s, p) == RootPre(s, q)
    ensures k == Split(|p|) && k' == Split(|q|)
    ensures Mth(s, Digests(s.H, p[..k])) == Mth(s, Digests(s.H, q[..k']))
    ensures Mth(s, Digests(s.H, p[k..])) == Mth(s, Digests(s.H, q[k'..]))
  {
    k, k' := Split(|p|), Split(|q|);
    Halves(s, p, k);
    Halves(s, q, k');
    var ls, ls' := Digests(s.H, p), Digests(s.H, q);
    s.NodePreInjective(Mth(s, ls[..k]), Mth(s, ls[k..]), Mth(s, ls'[..k']), Mth(s, ls'[k'..]));
  }

  /** Equal roots bind the whole ordered list of leaf preimages, also across different sizes. */
  lemma {:induction false} RootBinds(s: Scheme, p: seq<Bytes>, q: seq<Bytes>)
    requires |p| > 0 && |q| > 0 && LeafTyped(s, p) && LeafTyped(s, q)
    requires Mth(s, Digests(s.H, p)) == Mth(s, Digests(s.H, q))
    ensures p == q || Collide(s.H, AllPre(s, p), AllPre(s, q))
    decreases |p|
  {
    RootPreHashed(s, p);
    RootPreHashed(s, q);
    EqualOrCollide(s.H, RootPre(s, p), RootPre(s, q), AllPre(s, p), AllPre(s, q));
    if RootPre(s, p) == RootPre(s, q) && !Collide(s.H, AllPre(s, p), AllPre(s, q)) {
      if |p| == 1 || |q| == 1 {
        assert p[0] in p && q[0] in q;
      } else {
        var k, k' := RootPreSplits(s, p, q);
        Halves(s, p, k);
        Halves(s, q, k');
        HalfBinds(s, p, q, p[..k], q[..k']);
        HalfBinds(s, p, q, p[k..], q[k'..]);
        RootBinds(s, p[..k], q[..k']);
        RootBinds(s, p[k..], q[k'..]);
        assert p == p[..k] + p[k..] && q == q[..k'] + q[k'..];
      }
    }
  }

  /** Parts of lists that do not collide do not collide. */
  lemma HalfBinds(s: Scheme, p: seq<Bytes>, q: seq<Bytes>, p': seq<Bytes>, q': seq<Bytes>)
    requires |p| > 0 && |q| > 0 && |p'| > 0 && |q'| > 0
    requires AllPre(s, p') <= AllPre(s, p) && AllPre(s, q') <= AllPre(s, q)
    requires !Collide(s.H, AllPre(s, p), AllPre(s, q))
    ensures !Collide(s.H, AllPre(s, p'), AllPre(s, q'))
  {
    if Collide(s.H, AllPre(s, p'), AllPre(s, q')) {
      CollideMono(s.H, AllPre(s, p'), AllPre(s, q'), AllPre(s, p), AllPre(s, q));
    }
  }
}
