/**
 Batch proofs of internal/service/audit/merkle.go: the paths of several signatures one after the other, and the
 recomputation of a root that consumes one proof element for each pair of every level. When a proof that the tree has
 made is accepted.
 */
module BatchProofs {
  import opened StringOrder
  import opened Merkle

  // ----- Recomputing a root from hashes and proof elements -----

  /** The hash of the i-th pair when it takes the i-th proof element, if there is one. */
  function ProvedHash(h: Hash, hs: seq<string>, proof: seq<ProofNode>, i: nat): string
    requires 2 * i < |hs|
  {
    if i >= |proof| then PairHash(h, hs, i)
    else if 2 * i + 1 < |hs| then Combine(h, hs[2 * i], proof[i])
    else h(hs[2 * i] + proof[i].hash)
  }

  function ProvedLevel(h: Hash, hs: seq<string>, proof: seq<ProofNode>): (r: seq<string>)
    ensures |r| == (|hs| + 1) / 2
  {
    seq((|hs| + 1) / 2, i requires 0 <= i < (|hs| + 1) / 2 => ProvedHash(h, hs, proof, i))
  }

  function After(proof: seq<ProofNode>, n: nat): seq<ProofNode> {
    if n <= |proof| then proof[n..] else []
  }

  function ProvedRoot(h: Hash, hs: seq<string>, proof: seq<ProofNode>): string
    decreases |hs|
  {
    if hs == [] then ""
    else if |hs| == 1 then hs[0]
    else ProvedRoot(h, ProvedLevel(h, hs, proof), After(proof, (|hs| + 1) / 2))
  }

  method ComputeRootFromProof(h: Hash, leafHashes: seq<string>, proofElements: seq<ProofNode>) returns (root: string)
    ensures root == ProvedRoot(h, leafHashes, proofElements)
  {
    if |leafHashes| == 0 {
      return "";
    }
    var currentHashes := leafHashes;
    var proofIdx := 0;
    assert proofElements[0..] == proofElements;
    while |currentHashes| > 1
      invariant currentHashes != [] && 0 <= proofIdx <= |proofElements|
      invariant ProvedRoot(h, currentHashes, proofElements[proofIdx..]) == ProvedRoot(h, leafHashes, proofElements)
      decreases |currentHashes|
    {
      currentHashes, proofIdx := ComputeLevel(h, currentHashes, proofElements, proofIdx);
    }
    return currentHashes[0];
  }

  /** The inner loop of computeRootFromProof. */
  method ComputeLevel(h: Hash, currentHashes: seq<string>, proofElements: seq<ProofNode>, start: nat)
    returns (newHashes: seq<string>, proofIdx: nat)
    requires start <= |proofElements|
    ensures proofIdx <= |proofElements|
    ensures newHashes == ProvedLevel(h, currentHashes, proofElements[start..])
    ensures proofElements[proofIdx..] == After(proofElements[start..], (|currentHashes| + 1) / 2)
  {
    newHashes := [];
    proofIdx := start;
    ghost var proof := proofElements[start..];
    var i := 0;
    while i < |currentHashes|
      invariant i % 2 == 0 && 0 <= i <= |currentHashes| + 1
      invariant proofIdx == if start + i / 2 <= |proofElements| then start + i / 2 else |proofElements|
      invariant |newHashes| == i / 2
      invariant forall k :: 0 <= k < i / 2 ==> newHashes[k] == ProvedHash(h, currentHashes, proof, k)
    {
      if i + 1 < |currentHashes| {
        var leftHash, rightHash;
        if proofIdx < |proofElements| {
          var pn := proofElements[proofIdx];
          if pn.isLeft {
            leftHash := pn.hash;
            rightHash := currentHashes[i];
          } else {
            leftHash := currentHashes[i];
            rightHash := pn.hash;
          }
          proofIdx := proofIdx + 1;
        } else {
          leftHash := currentHashes[i];
          rightHash := currentHashes[i + 1];
        }
        var combined := leftHash + rightHash;
        newHashes := newHashes + [h(combined)];
      } else {
        if proofIdx < |proofElements| {
          var pn := proofElements[proofIdx];
          var combined := currentHashes[i] + pn.hash;
          newHashes := newHashes + [h(combined)];
          proofIdx := proofIdx + 1;
        } else {
          var combined := currentHashes[i] + currentHashes[i];
          newHashes := newHashes + [h(combined)];
        }
      }
      i := i + 2;
    }
  }

  /** Without proof elements the recomputation rebuilds the tree: from all its leaf hashes it yields the root. */
  lemma {:induction false} NoProofRebuildsTree(h: Hash, hs: seq<string>)
    requires hs != []
    ensures ProvedRoot(h, hs, []) == Root(h, hs)
    decreases |hs|
  {
    if |hs| <= 1 {
    } else {
      var a, b := ProvedLevel(h, hs, []), NextLevel(h, hs);
      forall i | 0 <= i < |a| ensures a[i] == b[i] {
        assert a[i] == ProvedHash(h, hs, [], i) && b[i] == PairHash(h, hs, i);
      }
      assert a == b;
      NoProofRebuildsTree(h, NextLevel(h, hs));
    }
  }

  /**
   Three or four leaf hashes and two elements: each pair takes one, the second hash of a pair is not looked at, and
   beside an odd hash the element stands on the right whatever it says. What they make is hashed together.
   */
  lemma TwoPairs(h: Hash, hs: seq<string>, p: ProofNode, q: ProofNode)
    requires 3 <= |hs| <= 4
    ensures ProvedRoot(h, hs, [p, q]) ==
            h(h(if p.isLeft then p.hash + hs[0] else hs[0] + p.hash) +
              h(if |hs| == 4 && q.isLeft then q.hash + hs[2] else hs[2] + q.hash))
  {
    var none: seq<ProofNode> := [];
    var up := ProvedLevel(h, hs, [p, q]);
    assert up[0] == ProvedHash(h, hs, [p, q], 0) && up[1] == ProvedHash(h, hs, [p, q], 1);
    assert After([p, q], 2) == none;
    var top := ProvedLevel(h, up, none);
    assert |top| == 1 && top[0] == ProvedHash(h, up, none, 0) == h(up[0] + up[1]);
    assert ProvedRoot(h, up, none) == ProvedRoot(h, top, After(none, 1)) == top[0];
  }

  // ----- The proofs a tree makes -----

  datatype BatchProof = BatchProof(rootHash: string, leafHashes: seq<string>, proofElements: seq<ProofNode>)

  /** The place of the first leaf with the hash. */
  function FirstWith(hs: seq<string>, x: string): (i: nat)
    requires x in hs
    ensures i < |hs| && hs[i] == x && x !in hs[..i]
  {
    if hs[0] == x then 0 else 1 + FirstWith(hs[1..], x)
  }

  lemma FirstWithIs(hs: seq<string>, x: string, i: nat)
    requires i < |hs| && hs[i] == x && x !in hs[..i]
    ensures FirstWith(hs, x) == i
  {
    var j := FirstWith(hs, x);
    assert forall k :: 0 <= k < i ==> hs[..i][k] == hs[k];
    assert forall k :: 0 <= k < j ==> hs[..j][k] == hs[k];
  }

  lemma PathsOfNext(h: Hash, hs: seq<string>, xs: seq<string>, i: nat)
    requires i < |xs|
    ensures PathsOf(h, hs, xs[..i + 1]) == PathsOf(h, hs, xs[..i]) + PathOf(h, hs, xs[i])
  {
    assert xs[..i + 1] == xs[..i] + [xs[i]];
    PathsOfConcat(h, hs, xs[..i], xs[i]);
  }

  lemma {:induction false} PathsOfConcat(h: Hash, hs: seq<string>, xs: seq<string>, x: string)
    ensures PathsOf(h, hs, xs + [x]) == PathsOf(h, hs, xs) + PathOf(h, hs, x)
  {
    if xs == [] {
      assert [x][1..] == [] && PathOf(h, hs, x) + [] == PathOf(h, hs, x) == [] + PathOf(h, hs, x);
    } else {
      assert (xs + [x])[1..] == xs[1..] + [x];
      PathsOfConcat(h, hs, xs[1..], x);
    }
  }

  /** The path of that leaf, and none for a foreign hash. */
  function PathOf(h: Hash, hs: seq<string>, x: string): seq<ProofNode> {
    if x in hs then Path(h, hs, FirstWith(hs, x)) else []
  }

  function PathsOf(h: Hash, hs: seq<string>, xs: seq<string>): seq<ProofNode> {
    if xs == [] then [] else PathOf(h, hs, xs[0]) + PathsOf(h, hs, xs[1..])
  }

  /** The proof that a tree makes for some signatures. */
  function ProofOver(h: Hash, hs: seq<string>, ts: seq<string>): BatchProof
    requires hs != []
  {
    BatchProof(Root(h, hs), LeafHashes(h, ts), PathsOf(h, hs, LeafHashes(h, ts)))
  }

  predicate AcceptedBy(h: Hash, hs: seq<string>, proof: BatchProof)
    requires hs != []
  {
    proof.rootHash == Root(h, hs) && ProvedRoot(h, proof.leafHashes, proof.proofElements) == proof.rootHash
  }

  /** A tree over some signatures accepts the proof it makes for others. */
  predicate AcceptsOwnProof(h: Hash, s: seq<string>, ts: seq<string>)
    requires LeafHashes(h, s) != []
  {
    AcceptedBy(h, LeafHashes(h, s), ProofOver(h, LeafHashes(h, s), ts))
  }

  // ----- The text hashed for the first pair -----

  /** The text that the recomputation hashes for the first pair of a level: the second hash of the pair is not in it. */
  function FirstText(hs: seq<string>, proof: seq<ProofNode>): string
    requires |hs| > 1
  {
    if proof == [] then PairText(hs, 0) else CombineText(hs[0], proof[0])
  }

  predicate HashedInProof(h: Hash, hs: seq<string>, proof: seq<ProofNode>, text: string)
    decreases |hs|
  {
    |hs| > 1 &&
    (text == FirstText(hs, proof) || HashedInProof(h, ProvedLevel(h, hs, proof), After(proof, (|hs| + 1) / 2), text))
  }

  lemma FirstOfLevel(h: Hash, hs: seq<string>, proof: seq<ProofNode>)
    requires |hs| > 1
    ensures ProvedLevel(h, hs, proof) != [] && ProvedLevel(h, hs, proof)[0] == h(FirstText(hs, proof))
  {
    assert ProvedLevel(h, hs, proof)[0] == ProvedHash(h, hs, proof, 0);
  }

  /** While there is a proof element for each pair, only the first leaf hash matters. */
  lemma {:induction false} OnlyFirstLeafMatters(h: Hash, hs: seq<string>, gs: seq<string>, proof: seq<ProofNode>)
    requires |hs| == |gs| > 0 && hs[0] == gs[0] && |proof| >= 2 * |hs|
    ensures ProvedRoot(h, hs, proof) == ProvedRoot(h, gs, proof)
    decreases |hs|
  {
    if |hs| == 1 {
    } else {
      FirstOfLevel(h, hs, proof);
      FirstOfLevel(h, gs, proof);
      OnlyFirstLeafMatters(h, ProvedLevel(h, hs, proof), ProvedLevel(h, gs, proof), After(proof, (|hs| + 1) / 2));
    }
  }

  // ----- From the root down -----

  lemma {:induction false} UpNext(h: Hash, hs: seq<string>, d: nat)
    ensures Up(h, hs, d + 1) == NextLevel(h, Up(h, hs, d))
    decreases d
  {
    if d == 0 {
      assert Up(h, NextLevel(h, hs), 0) == NextLevel(h, hs);
    } else {
      UpNext(h, NextLevel(h, hs), d - 1);
    }
  }

  /** A text whose hash stands in a level above is that of a pair of the level below, or collides with one. */
  lemma TextOfLevel(h: Hash, width: nat, gs: seq<string>, d: nat, u: string, v: string) returns (a: string)
    requires FixedWidth(h, width) && AllOfWidth(gs, width) && gs != [] && d < Height(|gs|)
    requires h(u + v) in Up(h, gs, d + 1) && (|u| == width || |v| == width)
    ensures HashedInTree(h, gs, a)
    ensures (u in Up(h, gs, d) && v in Up(h, gs, d)) || Collide(h, a, u + v)
  {
    var level := Up(h, gs, d);
    UpInTree(h, width, gs, d);
    UpNext(h, gs, d);
    var i: nat :| i < |NextLevel(h, level)| && NextLevel(h, level)[i] == h(u + v);
    a := PairText(level, i);
    assert PairHash(h, level, i) == h(a);
    assert HashedInTree(h, level, a);
    HashedAbove(h, gs, d, a);
    if a == u + v {
      SplitEqually(u, v, level[2 * i], level[RightOf(|level|, i)]);
    }
  }

  /** What is combined with the first hash. */
  predicate FirstOthersIn(cur: seq<string>, proof: seq<ProofNode>, level: seq<string>) {
    cur != [] && cur[0] in level && (|cur| > 1 && proof != [] ==> proof[0].hash in level)
  }

  /** One level of it: the first hash and the first element belong to the level below that of the hash they make. */
  lemma PeelOne(h: Hash, width: nat, gs: seq<string>, d: nat, cur: seq<string>, proof: seq<ProofNode>) returns (a: string)
    requires FixedWidth(h, width) && AllOfWidth(gs, width) && AllOfWidth(cur, width) && gs != [] && |cur| > 1
    requires d < Height(|gs|) && h(FirstText(cur, proof)) in Up(h, gs, d + 1)
    ensures HashedInTree(h, gs, a)
    ensures FirstOthersIn(cur, proof, Up(h, gs, d)) || Collide(h, a, FirstText(cur, proof))
  {
    if proof == [] {
      a := TextOfLevel(h, width, gs, d, cur[0], cur[1]);
    } else if proof[0].isLeft {
      a := TextOfLevel(h, width, gs, d, proof[0].hash, cur[0]);
    } else {
      a := TextOfLevel(h, width, gs, d, cur[0], proof[0].hash);
    }
  }

  /** The level of a tree at which a recomputation from so many hashes must start. */
  function StartLevel(h: Hash, gs: seq<string>, n: nat): seq<string>
    requires Height(n) <= Height(|gs|)
  {
    Up(h, gs, Height(|gs|) - Height(n))
  }

  /**
   If the recomputed root is that of a tree at least as high, the first hash and the first element belong to the level
   at which the recomputation starts, or texts collide.
   */
  lemma {:induction false} Peel(h: Hash, width: nat, gs: seq<string>, cur: seq<string>, proof: seq<ProofNode>)
    returns (a: string, b: string)
    requires FixedWidth(h, width) && AllOfWidth(gs, width) && AllOfWidth(cur, width) && gs != [] && cur != []
    requires Height(|cur|) <= Height(|gs|) && ProvedRoot(h, cur, proof) == Root(h, gs)
    ensures FirstOthersIn(cur, proof, StartLevel(h, gs, |cur|)) ||
            (HashedInTree(h, gs, a) && HashedInProof(h, cur, proof, b) && Collide(h, a, b))
    decreases |cur|
  {
    a, b := "", "";
    if |cur| == 1 {
      UpInTree(h, width, gs, Height(|gs|));
    } else {
      var next, more := ProvedLevel(h, cur, proof), After(proof, (|cur| + 1) / 2);
      ProvedWidth(h, width, cur, proof);
      a, b := Peel(h, width, gs, next, more);
      if FirstOthersIn(next, more, StartLevel(h, gs, |next|)) {
        FirstOfLevel(h, cur, proof);
        a := PeelOne(h, width, gs, Height(|gs|) - Height(|cur|), cur, proof);
        b := FirstText(cur, proof);
      }
    }
  }

  lemma ProvedWidth(h: Hash, width: nat, hs: seq<string>, proof: seq<ProofNode>)
    requires FixedWidth(h, width)
    ensures AllOfWidth(ProvedLevel(h, hs, proof), width)
  {
    var up := ProvedLevel(h, hs, proof);
    forall i | 0 <= i < |up| ensures |up[i]| == width {
      assert up[i] == ProvedHash(h, hs, proof, i);
    }
  }

  /** If the recomputation has more levels than the tree, a text hashed in it has the hash of a leaf, or texts collide. */
  lemma {:induction false} TooManyLevels(h: Hash, width: nat, gs: seq<string>, cur: seq<string>, proof: seq<ProofNode>)
    returns (text: string, a: string)
    requires FixedWidth(h, width) && AllOfWidth(gs, width) && gs != [] && cur != []
    requires Height(|cur|) > Height(|gs|) && ProvedRoot(h, cur, proof) == Root(h, gs)
    ensures HashedInProof(h, cur, proof, text)
    ensures h(text) in gs || (HashedInTree(h, gs, a) && Collide(h, a, text))
    decreases |cur|
  {
    a := "";
    ProvedWidth(h, width, cur, proof);
    FirstOfLevel(h, cur, proof);
    var next, more := ProvedLevel(h, cur, proof), After(proof, (|cur| + 1) / 2);
    if Height(|next|) > Height(|gs|) {
      text, a := TooManyLevels(h, width, gs, next, more);
    } else {
      text := FirstText(cur, proof);
      var b;
      a, b := Peel(h, width, gs, next, more);
      if next[0] !in gs {
        text := b;
      }
    }
  }

  // ----- Which elements stand where -----

  /** The sibling met on the l-th level of a path belongs to that level. */
  lemma {:induction false} SiblingInLevel(h: Hash, hs: seq<string>, i: nat, l: nat)
    requires i < |hs| && l < Height(|hs|)
    ensures l < |Path(h, hs, i)| && Path(h, hs, i)[l].hash in Up(h, hs, l)
    decreases l
  {
    assert Path(h, hs, i) == [SiblingOf(hs, i)] + Path(h, NextLevel(h, hs), i / 2);
    if l == 0 {
      SiblingAmong(hs, i);
    } else {
      SiblingInLevel(h, NextLevel(h, hs), i / 2, l - 1);
      assert Path(h, hs, i)[l] == Path(h, NextLevel(h, hs), i / 2)[l - 1];
    }
  }

  lemma SiblingAmong(hs: seq<string>, i: nat)
    requires i < |hs|
    ensures SiblingOf(hs, i).hash in hs
  {
  }

  lemma {:induction false} LengthOfPaths(h: Hash, hs: seq<string>, xs: seq<string>)
    requires hs != [] && Height(|hs|) >= 2 && forall x | x in xs :: x in hs
    ensures |PathsOf(h, hs, xs)| >= 2 * |xs|
  {
    if xs == [] {
    } else {
      PathLeadsToRoot(h, hs, FirstWith(hs, xs[0]));
      LengthOfPaths(h, hs, xs[1..]);
    }
  }

  /** The level of the j-th element, when paths of n levels stand one after the other. */
  function LevelOf(n: nat, j: nat): (l: nat)
    requires n > 0
    ensures l < n
    decreases j
  {
    if j < n then j else LevelOf(n, j - n)
  }

  /** The elements for leaf hashes of the tree go through its levels again and again. */
  lemma {:induction false} ElementAt(h: Hash, hs: seq<string>, xs: seq<string>, j: nat)
    requires hs != [] && (forall x | x in xs :: x in hs) && j < |PathsOf(h, hs, xs)|
    ensures Height(|hs|) > 0 && PathsOf(h, hs, xs)[j].hash in Up(h, hs, LevelOf(Height(|hs|), j))
    decreases |xs|
  {
    var n, i := Height(|hs|), FirstWith(hs, xs[0]);
    PathLeadsToRoot(h, hs, i);
    if j < n {
      SiblingInLevel(h, hs, i, j);
    } else {
      ElementAt(h, hs, xs[1..], j - n);
    }
  }

  /** Two elements on, the level below the root never follows the one below it. */
  lemma {:induction false} LevelsDoNotFollow(n: nat, j: nat)
    requires n >= 2
    ensures LevelOf(n, j) == n - 2 ==> LevelOf(n, j + 2) != n - 1
    decreases j
  {
    if j < n {
      assert j == n - 2 ==> LevelOf(n, j + 2) == LevelOf(n, 0) == 0;
    } else {
      LevelsDoNotFollow(n, j - n);
    }
  }

  /** If two levels share a hash, the hash of a leaf is that of a text hashed in the tree, or texts hashed there collide. */
  lemma {:induction false} SharedHash(h: Hash, width: nat, hs: seq<string>, i: nat, j: nat, x: string)
    returns (a: string, b: string)
    requires FixedWidth(h, width) && AllOfWidth(hs, width) && hs != [] && i < j <= Height(|hs|)
    requires x in Up(h, hs, i) && x in Up(h, hs, j)
    ensures HashedInTree(h, hs, a) && (h(a) in hs || (HashedInTree(h, hs, b) && Collide(h, a, b)))
    decreases i
  {
    b := "";
    if i == 0 {
      a := HashedBelow(h, hs, j, x);
    } else {
      var u, v := PairBelow(h, width, hs, i - 1, x);
      a := TextOfLevel(h, width, hs, j - 1, u, v);
      b := u + v;
      if u in Up(h, hs, j - 1) {
        a, b := SharedHash(h, width, hs, i - 1, j - 1, u);
      }
    }
  }

  lemma PairBelow(h: Hash, width: nat, hs: seq<string>, d: nat, x: string) returns (u: string, v: string)
    requires FixedWidth(h, width) && AllOfWidth(hs, width) && hs != [] && d < Height(|hs|) && x in Up(h, hs, d + 1)
    ensures u in Up(h, hs, d) && |u| == width && h(u + v) == x && HashedInTree(h, hs, u + v)
  {
    var level := Up(h, hs, d);
    UpInTree(h, width, hs, d);
    UpNext(h, hs, d);
    var p: nat :| p < |NextLevel(h, level)| && NextLevel(h, level)[p] == x;
    u, v := level[2 * p], level[RightOf(|level|, p)];
    assert PairHash(h, level, p) == h(u + v) && PairText(level, p) == u + v;
    assert HashedInTree(h, level, u + v);
    HashedAbove(h, hs, d, u + v);
  }

  lemma HeightOne(n: nat)
    requires n >= 1
    ensures Height(n) == 0 <==> n == 1
    ensures Height(n) == 1 <==> n == 2
  {
    HeightIsCeilLog2(n, 1);
    HeightIsCeilLog2(n, 0);
    assert Pow2(0) == 1 && Pow2(1) == 2;
  }

  // ----- The last two levels of the recomputation -----

  /** Two elements, two apart, that belong to the two levels below the root. */
  ghost predicate LastTwo(h: Hash, gs: seq<string>, proof: seq<ProofNode>, k: nat)
    requires Height(|gs|) >= 2
  {
    k + 2 < |proof| && proof[k].hash in Up(h, gs, Height(|gs|) - 2) && proof[k + 2].hash in Up(h, gs, Height(|gs|) - 1)
  }

  /** With three or four hashes left the third element must belong to the level below the root. */
  lemma ThirdElement(h: Hash, width: nat, gs: seq<string>, last: seq<string>, proof: seq<ProofNode>)
    returns (a: string, b: string)
    requires FixedWidth(h, width) && AllOfWidth(gs, width) && AllOfWidth(last, width) && Height(|gs|) >= 2
    requires Height(|last|) == 2 && |proof| > 2 && ProvedRoot(h, last, proof) == Root(h, gs)
    ensures LastTwo(h, gs, proof, 0) || (HashedInTree(h, gs, a) && HashedInProof(h, last, proof, b) && Collide(h, a, b))
  {
    var next, more := ProvedLevel(h, last, proof), After(proof, 2);
    HeightOne((|last| + 1) / 2);
    assert |next| == 2 && more[0] == proof[2];
    ProvedWidth(h, width, last, proof);
    a, b := Peel(h, width, gs, next, more);
    if FirstOthersIn(next, more, Up(h, gs, Height(|gs|) - 1)) {
      a, b := Peel(h, width, gs, last, proof);
    }
  }

  /** Whatever the recomputation starts from, it must have come to such elements, or texts collide. */
  lemma {:induction false} LastElements(h: Hash, width: nat, gs: seq<string>, cur: seq<string>, proof: seq<ProofNode>)
    returns (k: nat, a: string, b: string)
    requires FixedWidth(h, width) && AllOfWidth(gs, width) && AllOfWidth(cur, width) && Height(|gs|) >= 2
    requires Height(|cur|) >= 2 && |proof| >= 2 * |cur| && ProvedRoot(h, cur, proof) == Root(h, gs)
    ensures LastTwo(h, gs, proof, k) || (HashedInTree(h, gs, a) && HashedInProof(h, cur, proof, b) && Collide(h, a, b))
    decreases |cur|
  {
    if Height(|cur|) == 2 {
      k := 0;
      a, b := ThirdElement(h, width, gs, cur, proof);
    } else {
      var c := (|cur| + 1) / 2;
      var next, more := ProvedLevel(h, cur, proof), proof[c..];
      ProvedWidth(h, width, cur, proof);
      assert ProvedRoot(h, next, more) == Root(h, gs);
      k, a, b := LastElements(h, width, gs, next, more);
      TwoFurther(h, gs, proof, c, k);
      k := k + c;
    }
  }

  lemma TwoFurther(h: Hash, gs: seq<string>, proof: seq<ProofNode>, c: nat, k: nat)
    requires Height(|gs|) >= 2 && c <= |proof|
    ensures LastTwo(h, gs, proof[c..], k) ==> LastTwo(h, gs, proof, k + c)
  {
    if k + 2 < |proof[c..]| {
      assert proof[c..][k] == proof[k + c] && proof[c..][k + 2] == proof[k + c + 2];
    }
  }

  // ----- When a proof is accepted -----

  lemma {:induction false} ProofTextLength(h: Hash, width: nat, cur: seq<string>, proof: seq<ProofNode>, text: string)
    requires FixedWidth(h, width) && AllOfWidth(cur, width) && (forall j :: 0 <= j < |proof| ==> |proof[j].hash| == width)
    requires HashedInProof(h, cur, proof, text)
    ensures |text| == 2 * width
    decreases |cur|
  {
    if text != FirstText(cur, proof) {
      ProvedWidth(h, width, cur, proof);
      ProofTextLength(h, width, ProvedLevel(h, cur, proof), After(proof, (|cur| + 1) / 2), text);
    }
  }

  lemma ElementWidth(h: Hash, width: nat, hs: seq<string>, xs: seq<string>)
    requires FixedWidth(h, width) && AllOfWidth(hs, width) && hs != [] && forall x | x in xs :: x in hs
    ensures forall j :: 0 <= j < |PathsOf(h, hs, xs)| ==> |PathsOf(h, hs, xs)[j].hash| == width
  {
    forall j: nat | j < |PathsOf(h, hs, xs)| ensures |PathsOf(h, hs, xs)[j].hash| == width {
      ElementAt(h, hs, xs, j);
      UpInTree(h, width, hs, LevelOf(Height(|hs|), j));
    }
  }

  /** A signature is as long as the text of a pair. */
  ghost predicate LongSignature(s: seq<string>, width: nat) {
    exists x | x in s :: |x| == 2 * width
  }

  /** A text that long with the hash of a leaf is a signature, or collides with one. */
  lemma TextOfLeaf(h: Hash, width: nat, s: seq<string>, text: string) returns (x: string)
    requires h(text) in LeafHashes(h, s) && |text| == 2 * width
    ensures x in s && (LongSignature(s, width) || Collide(h, x, text))
  {
    SortSorts(s);
    SameMultisetSameLength(Sort(s), s);
    var i: nat :| i < |LeafHashes(h, s)| && LeafHashes(h, s)[i] == h(text);
    x := Sort(s)[i];
    assert h(x) == h(text);
  }

  /** The text is hashed for the tree or in recomputing a root from its proof. */
  ghost predicate HashedForProof(h: Hash, s: seq<string>, ts: seq<string>, text: string) {
    HashedFor(h, s, text) || HashedInProof(h, LeafHashes(h, ts), PathsOf(h, LeafHashes(h, s), LeafHashes(h, ts)), text)
  }

  ghost predicate CollideInProof(h: Hash, s: seq<string>, ts: seq<string>, a: string, b: string) {
    HashedForProof(h, s, ts, a) && HashedForProof(h, s, ts, b) && Collide(h, a, b)
  }

  predicate AllAmong(ts: seq<string>, s: seq<string>) {
    forall t | t in ts :: t in s
  }

  lemma HashesAmong(h: Hash, width: nat, s: seq<string>, ts: seq<string>)
    requires FixedWidth(h, width) && AllAmong(ts, s)
    ensures var hs, xs := LeafHashes(h, s), LeafHashes(h, ts);
            && |hs| == |s| && |xs| == |ts| && AllOfWidth(hs, width) && AllOfWidth(xs, width)
            && forall x | x in xs :: x in hs
  {
    LeafHashesOfWidth(h, width, s);
    LeafHashesOfWidth(h, width, ts);
    SortSorts(ts);
    SameMultisetSameLength(Sort(ts), ts);
    forall x | x in LeafHashes(h, ts) ensures x in LeafHashes(h, s) {
      var i: nat :| i < |LeafHashes(h, ts)| && LeafHashes(h, ts)[i] == x;
      assert Sort(ts)[i] in ts;
      HashAmongLeaves(h, s, Sort(ts)[i]);
    }
  }

  /** More signatures than the tree has levels for. */
  lemma HigherNeverAccepted(h: Hash, width: nat, s: seq<string>, ts: seq<string>) returns (a: string, b: string)
    requires FixedWidth(h, width) && s != [] && AllAmong(ts, s) && Height(|ts|) > Height(|s|) && LeafHashes(h, s) != []
    requires AcceptsOwnProof(h, s, ts)
    ensures LongSignature(s, width) || CollideInProof(h, s, ts, a, b)
  {
    HashesAmong(h, width, s, ts);
    var hs, xs := LeafHashes(h, s), LeafHashes(h, ts);
    var proof := PathsOf(h, hs, xs);
    b, a := TooManyLevels(h, width, hs, xs, proof);
    if h(b) in hs {
      ElementWidth(h, width, hs, xs);
      ProofTextLength(h, width, xs, proof, b);
      a := TextOfLeaf(h, width, s, b);
    }
  }

  /**
   As many or fewer, but for the smallest trees: the recomputation ends too soon, or takes elements from where others
   stand.
   */
  lemma OthersNeverAccepted(h: Hash, width: nat, s: seq<string>, ts: seq<string>) returns (a: string, b: string)
    requires FixedWidth(h, width) && ts != [] && AllAmong(ts, s) && LeafHashes(h, s) != [] && AcceptsOwnProof(h, s, ts)
    requires Height(|ts|) < Height(|s|) || Height(|ts|) == Height(|s|) >= 2
    ensures LongSignature(s, width) || CollideInProof(h, s, ts, a, b)
  {
    HashesAmong(h, width, s, ts);
    if Height(|ts|) < Height(|s|) {
      var hs, xs := LeafHashes(h, s), LeafHashes(h, ts);
      assert xs[0] in xs;
      a, b := LowerHashes(h, width, hs, xs, PathsOf(h, hs, xs));
    } else {
      a, b := SameHeightHashes(h, width, LeafHashes(h, s), LeafHashes(h, ts));
    }
    if h(a) in LeafHashes(h, s) {
      HashedTextLength(h, width, LeafHashes(h, s), a);
      b := TextOfLeaf(h, width, s, a);
    }
  }

  lemma LowerHashes(h: Hash, width: nat, hs: seq<string>, xs: seq<string>, proof: seq<ProofNode>) returns (a: string, b: string)
    requires FixedWidth(h, width) && AllOfWidth(hs, width) && AllOfWidth(xs, width) && xs != [] && xs[0] in hs
    requires Height(|xs|) < Height(|hs|) && ProvedRoot(h, xs, proof) == Root(h, hs)
    ensures HashedInTree(h, hs, a) && (h(a) in hs || (HashedInProof(h, xs, proof, b) && Collide(h, a, b)))
  {
    a, b := Peel(h, width, hs, xs, proof);
    if FirstOthersIn(xs, proof, StartLevel(h, hs, |xs|)) {
      a := HashedBelow(h, hs, Height(|hs|) - Height(|xs|), xs[0]);
    }
  }

  lemma SameHeightHashes(h: Hash, width: nat, hs: seq<string>, xs: seq<string>) returns (a: string, b: string)
    requires FixedWidth(h, width) && AllOfWidth(hs, width) && AllOfWidth(xs, width) && (forall x | x in xs :: x in hs)
    requires Height(|xs|) == Height(|hs|) >= 2 && ProvedRoot(h, xs, PathsOf(h, hs, xs)) == Root(h, hs)
    ensures HashedInTree(h, hs, a)
    ensures h(a) in hs || ((HashedInTree(h, hs, b) || HashedInProof(h, xs, PathsOf(h, hs, xs), b)) && Collide(h, a, b))
  {
    var proof := PathsOf(h, hs, xs);
    LengthOfPaths(h, hs, xs);
    var k;
    k, a, b := LastElements(h, width, hs, xs, proof);
    if LastTwo(h, hs, proof, k) {
      PathsCycle(h, hs, xs);
      a, b := ElementsApart(h, width, hs, proof, k);
    }
  }

  /** The elements go through the levels of the tree again and again. */
  ghost predicate Cycles(h: Hash, hs: seq<string>, proof: seq<ProofNode>)
    requires Height(|hs|) > 0
  {
    forall j: nat :: j < |proof| ==> proof[j].hash in Up(h, hs, LevelOf(Height(|hs|), j))
  }

  lemma PathsCycle(h: Hash, hs: seq<string>, xs: seq<string>)
    requires Height(|hs|) > 0 && forall x | x in xs :: x in hs
    ensures Cycles(h, hs, PathsOf(h, hs, xs))
  {
    forall j: nat | j < |PathsOf(h, hs, xs)| ensures PathsOf(h, hs, xs)[j].hash in Up(h, hs, LevelOf(Height(|hs|), j)) {
      ElementAt(h, hs, xs, j);
    }
  }

  lemma ElementsApart(h: Hash, width: nat, hs: seq<string>, proof: seq<ProofNode>, k: nat) returns (a: string, b: string)
    requires FixedWidth(h, width) && AllOfWidth(hs, width) && Height(|hs|) >= 2
    requires Cycles(h, hs, proof) && LastTwo(h, hs, proof, k)
    ensures HashedInTree(h, hs, a) && (h(a) in hs || (HashedInTree(h, hs, b) && Collide(h, a, b)))
  {
    var n := Height(|hs|);
    LevelsDoNotFollow(n, k);
    a, b := WrongLevels(h, width, hs, LevelOf(n, k), LevelOf(n, k + 2), proof[k].hash, proof[k + 2].hash);
  }

  lemma WrongLevels(h: Hash, width: nat, hs: seq<string>, l: nat, m: nat, x: string, y: string) returns (a: string, b: string)
    requires FixedWidth(h, width) && AllOfWidth(hs, width) && Height(|hs|) >= 2 && l < Height(|hs|) && m < Height(|hs|)
    requires l != Height(|hs|) - 2 || m != Height(|hs|) - 1
    requires x in Up(h, hs, l) && x in Up(h, hs, Height(|hs|) - 2) && y in Up(h, hs, m) && y in Up(h, hs, Height(|hs|) - 1)
    ensures HashedInTree(h, hs, a) && (h(a) in hs || (HashedInTree(h, hs, b) && Collide(h, a, b)))
  {
    if l != Height(|hs|) - 2 {
      a, b := TwoLevels(h, width, hs, l, Height(|hs|) - 2, x);
    } else {
      a, b := TwoLevels(h, width, hs, m, Height(|hs|) - 1, y);
    }
  }

  /** The same, whichever of the levels is the lower. */
  lemma TwoLevels(h: Hash, width: nat, hs: seq<string>, i: nat, j: nat, x: string) returns (a: string, b: string)
    requires FixedWidth(h, width) && AllOfWidth(hs, width) && hs != [] && i != j && i <= Height(|hs|) && j <= Height(|hs|)
    requires x in Up(h, hs, i) && x in Up(h, hs, j)
    ensures HashedInTree(h, hs, a) && (h(a) in hs || (HashedInTree(h, hs, b) && Collide(h, a, b)))
  {
    if i < j {
      a, b := SharedHash(h, width, hs, i, j, x);
    } else {
      a, b := SharedHash(h, width, hs, j, i, x);
    }
  }

  /** Over two signatures the first of any two is enough for the proof to be accepted. */
  lemma PairAccepted(h: Hash, s: seq<string>, ts: seq<string>)
    requires |s| == |ts| == 2 && LeafHashes(h, ts) != [] && LeafHashes(h, ts)[0] in LeafHashes(h, s)
    ensures AcceptsOwnProof(h, s, ts)
  {
    SortSorts(s);
    SortSorts(ts);
    var hs, xs := LeafHashes(h, s), LeafHashes(h, ts);
    var i, proof := FirstWith(hs, xs[0]), PathsOf(h, hs, xs);
    var up := NextLevel(h, hs);
    assert |up| == 1 && Path(h, hs, i) == [SiblingOf(hs, i)] + Path(h, up, i / 2) == [SiblingOf(hs, i)];
    assert proof[0] == SiblingOf(hs, i) && up[0] == PairHash(h, hs, 0) == Combine(h, hs[i], proof[0]);
    FirstOfLevel(h, xs, proof);
    assert Root(h, hs) == up[0];
  }

  lemma SingleAccepted(h: Hash, s: seq<string>, ts: seq<string>)
    requires |s| == |ts| == 1 && AllAmong(ts, s) && LeafHashes(h, s) != []
    ensures AcceptsOwnProof(h, s, ts)
  {
    assert ts[0] in s && ts == s;
    SortSorts(s);
  }

  /**
   Whether a tree accepts the proof it makes for signatures it holds: for one of one and for two of two it does. For any
   others it does so only if a signature is as long as the text of a pair or texts that are hashed collide.
   */
  lemma AcceptsOwnProofIff(h: Hash, width: nat, s: seq<string>, ts: seq<string>) returns (a: string, b: string)
    requires FixedWidth(h, width) && s != [] && ts != [] && AllAmong(ts, s)
    ensures LeafHashes(h, s) != []
    ensures |s| == |ts| <= 2 ==> AcceptsOwnProof(h, s, ts)
    ensures AcceptsOwnProof(h, s, ts) ==>
              |s| == |ts| <= 2 || LongSignature(s, width) || CollideInProof(h, s, ts, a, b)
  {
    a, b := "", "";
    HashesAmong(h, width, s, ts);
    HeightOne(|s|);
    HeightOne(|ts|);
    if |s| == |ts| == 1 {
      SingleAccepted(h, s, ts);
    } else if |s| == |ts| == 2 {
      assert LeafHashes(h, ts)[0] in LeafHashes(h, ts);
      PairAccepted(h, s, ts);
    } else if AcceptsOwnProof(h, s, ts) {
      if Height(|ts|) > Height(|s|) {
        a, b := HigherNeverAccepted(h, width, s, ts);
      } else {
        a, b := OthersNeverAccepted(h, width, s, ts);
      }
    }
  }
}
