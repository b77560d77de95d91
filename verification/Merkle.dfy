/**
 Merkle hashing over sequences of hashes: the levels, root and paths that internal/service/audit/merkle.go
 builds out of linked nodes (module MerkleTree), and what they prove. The hash is a parameter: the binding results
 give two hashed texts on which it collides if they fail, and assume that its hashes have a fixed width.
 */
module Merkle {
  import opened StringOrder

  type Hash = string -> string

  /** A sibling hash on a path, and whether it stands on the left. */
  datatype ProofNode = ProofNode(hash: string, isLeft: bool)

  /** The node to the right in a pair: an odd node at the end is paired with itself. */
  function RightOf(n: nat, i: nat): (r: nat)
    requires 2 * i < n
    ensures r < n
  {
    if 2 * i + 1 < n then 2 * i + 1 else 2 * i
  }

  /** The hash of the i-th pair of a level. */
  function PairHash(h: Hash, hs: seq<string>, i: nat): string
    requires 2 * i < |hs|
  {
    h(hs[2 * i] + hs[RightOf(|hs|, i)])
  }

  function NextLevel(h: Hash, hs: seq<string>): (r: seq<string>)
    ensures |r| == (|hs| + 1) / 2
  {
    seq((|hs| + 1) / 2, i requires 0 <= i < (|hs| + 1) / 2 => PairHash(h, hs, i))
  }

  function Root(h: Hash, hs: seq<string>): string
    requires hs != []
    decreases |hs|
  {
    if |hs| == 1 then hs[0] else Root(h, NextLevel(h, hs))
  }

  /** The sibling met when leaving place i of a level. */
  function SiblingOf(hs: seq<string>, i: nat): ProofNode
    requires i < |hs|
  {
    if i % 2 == 0 then ProofNode(hs[RightOf(|hs|, i / 2)], false) else ProofNode(hs[i - 1], true)
  }

  function Path(h: Hash, hs: seq<string>, i: nat): seq<ProofNode>
    requires i < |hs|
    decreases |hs|
  {
    if |hs| == 1 then [] else [SiblingOf(hs, i)] + Path(h, NextLevel(h, hs), i / 2)
  }

  function Combine(h: Hash, x: string, p: ProofNode): string {
    if p.isLeft then h(p.hash + x) else h(x + p.hash)
  }

  function Fold(h: Hash, x: string, path: seq<ProofNode>): string
    decreases |path|
  {
    if path == [] then x else Fold(h, Combine(h, x, path[0]), path[1..])
  }

  function Height(n: nat): nat {
    if n <= 1 then 0 else 1 + Height((n + 1) / 2)
  }

  function Pow2(k: nat): nat {
    if k == 0 then 1 else 2 * Pow2(k - 1)
  }

  /** The height is the rounded-up binary logarithm. */
  lemma {:induction false} HeightIsCeilLog2(n: nat, k: nat)
    requires n >= 1
    ensures Height(n) <= k <==> n <= Pow2(k)
  {
    if k == 0 {
    } else if n == 1 {
      PowPositive(k);
    } else {
      HeightIsCeilLog2((n + 1) / 2, k - 1);
    }
  }

  lemma {:induction false} PowPositive(k: nat)
    ensures Pow2(k) >= 1
  {
    if k == 0 {
    } else {
      PowPositive(k - 1);
    }
  }

  /** Folding a leaf along its path yields the root, and the path has the height of the tree. */
  lemma {:induction false} PathLeadsToRoot(h: Hash, hs: seq<string>, i: nat)
    requires i < |hs|
    ensures Fold(h, hs[i], Path(h, hs, i)) == Root(h, hs)
    ensures |Path(h, hs, i)| == Height(|hs|)
    decreases |hs|
  {
    if |hs| <= 1 {
    } else {
      var up := NextLevel(h, hs);
      assert up[i / 2] == PairHash(h, hs, i / 2);
      assert Combine(h, hs[i], SiblingOf(hs, i)) == PairHash(h, hs, i / 2);
      PathLeadsToRoot(h, up, i / 2);
      assert Path(h, hs, i)[1..] == Path(h, up, i / 2);
    }
  }

  // ----- Binding -----

  /** Every hash has the same length, like the 64 hexadecimal digits of a SHA-256. */
  ghost predicate FixedWidth(h: Hash, width: nat) {
    forall x :: |h(x)| == width
  }

  predicate Collide(h: Hash, a: string, b: string) {
    a != b && h(a) == h(b)
  }

  ghost predicate AllOfWidth(hs: seq<string>, width: nat) {
    forall i :: 0 <= i < |hs| ==> |hs[i]| == width
  }

  /** The i-th text hashed to make the level above. */
  function PairText(hs: seq<string>, i: nat): string
    requires 2 * i < |hs|
  {
    hs[2 * i] + hs[RightOf(|hs|, i)]
  }

  /** The text is one of those hashed in building the tree over the leaf hashes. */
  ghost predicate HashedInTree(h: Hash, hs: seq<string>, text: string)
    decreases |hs|
  {
    |hs| > 1 &&
    ((exists i: nat :: 2 * i < |hs| && text == PairText(hs, i)) || HashedInTree(h, NextLevel(h, hs), text))
  }

  function CombineText(x: string, p: ProofNode): string {
    if p.isLeft then p.hash + x else x + p.hash
  }

  /** The text is one of those hashed in folding a path. */
  predicate HashedOnPath(h: Hash, x: string, path: seq<ProofNode>, text: string)
    decreases |path|
  {
    path != [] && (text == CombineText(x, path[0]) || HashedOnPath(h, Combine(h, x, path[0]), path[1..], text))
  }

  lemma SplitEqually(a: string, b: string, c: string, d: string)
    requires a + b == c + d && (|a| == |c| || |b| == |d|)
    ensures a == c && b == d
  {
    assert |a + b| == |a| + |b| && |c + d| == |c| + |d|;
    assert a == (a + b)[..|a|] && c == (c + d)[..|c|];
    assert b == (a + b)[|a|..] && d == (c + d)[|c|..];
  }

  lemma NextLevelWidth(h: Hash, width: nat, hs: seq<string>)
    requires FixedWidth(h, width)
    ensures AllOfWidth(NextLevel(h, hs), width)
  {
    var up := NextLevel(h, hs);
    forall i | 0 <= i < |up| ensures |up[i]| == width {
      assert up[i] == PairHash(h, hs, i);
    }
  }

  /**
   A path of the tree's height that leads to the root starts at a leaf hash, or else one of the texts hashed on the
   path collides with one of those hashed in building the tree.
   */
  lemma {:induction false} PathBinds(h: Hash, width: nat, hs: seq<string>, x: string, path: seq<ProofNode>)
    returns (a: string, b: string)
    requires FixedWidth(h, width) && hs != [] && AllOfWidth(hs, width) && |x| == width
    requires |path| == Height(|hs|) && Fold(h, x, path) == Root(h, hs)
    ensures x in hs || (HashedInTree(h, hs, a) && HashedOnPath(h, x, path, b) && Collide(h, a, b))
    decreases |hs|
  {
    a, b := "", "";
    if |hs| == 1 {
      assert x == hs[0];
    } else {
      var up := NextLevel(h, hs);
      NextLevelWidth(h, width, hs);
      var y := Combine(h, x, path[0]);
      a, b := PathBinds(h, width, up, y, path[1..]);
      if y in up {
        var i: nat :| i < |up| && up[i] == y;
        a, b := PairText(hs, i), CombineText(x, path[0]);
        assert PairHash(h, hs, i) == h(a) && h(b) == y;
        if a == b {
          PairHolds(hs, i, x, path[0], width);
        }
      }
    }
  }

  /** A hash combined to the text of a pair is one of that pair. */
  lemma PairHolds(hs: seq<string>, i: nat, x: string, p: ProofNode, width: nat)
    requires 2 * i < |hs| && AllOfWidth(hs, width) && |x| == width && PairText(hs, i) == CombineText(x, p)
    ensures x in hs
  {
    var left, right := hs[2 * i], hs[RightOf(|hs|, i)];
    if p.isLeft {
      SplitEqually(p.hash, x, left, right);
    } else {
      SplitEqually(x, p.hash, left, right);
    }
  }

  lemma SameNextLevel(h: Hash, width: nat, hs: seq<string>, gs: seq<string>) returns (k: nat)
    requires AllOfWidth(hs, width) && AllOfWidth(gs, width)
    requires |hs| == |gs| && NextLevel(h, hs) == NextLevel(h, gs)
    ensures hs == gs || (2 * k < |hs| && Collide(h, PairText(hs, k), PairText(gs, k)))
  {
    k := 0;
    if hs != gs {
      var i: nat :| i < |hs| && hs[i] != gs[i];
      k := i / 2;
      assert PairHash(h, hs, k) == NextLevel(h, hs)[k] == NextLevel(h, gs)[k] == PairHash(h, gs, k);
      if PairText(hs, k) == PairText(gs, k) {
        SplitEqually(hs[2 * k], hs[RightOf(|hs|, k)], gs[2 * k], gs[RightOf(|gs|, k)]);
      }
    }
  }

  /** At equal size the root determines every leaf hash and its place, or texts hashed in the two trees collide. */
  lemma {:induction false} RootDeterminesLeaves(h: Hash, width: nat, hs: seq<string>, gs: seq<string>)
    returns (a: string, b: string)
    requires FixedWidth(h, width) && AllOfWidth(hs, width) && AllOfWidth(gs, width)
    requires |hs| == |gs| > 0 && Root(h, hs) == Root(h, gs)
    ensures hs == gs || (HashedInTree(h, hs, a) && HashedInTree(h, gs, b) && Collide(h, a, b))
    decreases |hs|
  {
    a, b := "", "";
    if |hs| == 1 {
      assert hs == [hs[0]] && gs == [gs[0]];
    } else {
      var up, vp := NextLevel(h, hs), NextLevel(h, gs);
      NextLevelWidth(h, width, hs);
      NextLevelWidth(h, width, gs);
      a, b := RootDeterminesLeaves(h, width, up, vp);
      if up == vp {
        var k := SameNextLevel(h, width, hs, gs);
        if hs != gs {
          a, b := PairText(hs, k), PairText(gs, k);
        }
      }
    }
  }

  /** The leaf hashes over a list of signatures: sorted first, then hashed. */
  function LeafHashes(h: Hash, signatures: seq<string>): (r: seq<string>)
    ensures |r| == |Sort(signatures)|
  {
    var sorted := Sort(signatures);
    seq(|sorted|, i requires 0 <= i < |sorted| => h(sorted[i]))
  }

  /** The text is one of those hashed for a list of signatures: a signature, or the text of a pair. */
  ghost predicate HashedFor(h: Hash, signatures: seq<string>, text: string) {
    text in signatures || HashedInTree(h, LeafHashes(h, signatures), text)
  }

  /**
   Two trees over equally many signatures have the same root exactly when they hold the same signatures, or else
   texts hashed in building them collide.
   */
  lemma SameRootIffSameSignatures(h: Hash, width: nat, s: seq<string>, t: seq<string>) returns (a: string, b: string)
    requires FixedWidth(h, width) && |s| == |t| > 0
    ensures LeafHashes(h, s) != [] && LeafHashes(h, t) != []
    ensures multiset(s) == multiset(t) ==> Root(h, LeafHashes(h, s)) == Root(h, LeafHashes(h, t))
    ensures Root(h, LeafHashes(h, s)) == Root(h, LeafHashes(h, t)) ==>
              multiset(s) == multiset(t) || (HashedFor(h, s, a) && HashedFor(h, t, b) && Collide(h, a, b))
  {
    a, b := "", "";
    SortSorts(s);
    SortSorts(t);
    SortDependsOnMultisetOnly(s, t);
    var x, y := LeafHashes(h, s), LeafHashes(h, t);
    if Root(h, x) == Root(h, y) {
      a, b := RootDeterminesLeaves(h, width, x, y);
      if x == y && Sort(s) != Sort(t) {
        var i: nat :| i < |s| && Sort(s)[i] != Sort(t)[i];
        a, b := Sort(s)[i], Sort(t)[i];
        assert x[i] == h(a) && y[i] == h(b);
        SameMultisetSameLength(Sort(s), s);
        SameMultisetSameLength(Sort(t), t);
      }
    }
  }

  // ----- Trees of different sizes -----

  /**
   The leaf that stands at place i of the full tree with 2^k places: an odd node at the end stands for its copies too.
   */
  function Place(n: nat, k: nat, i: nat): (p: nat)
    requires n >= 1 && Height(n) <= k && i < Pow2(k)
    ensures p < n
    decreases k
  {
    if k == 0 then 0
    else
      var up := Place((n + 1) / 2, k - 1, i / 2);
      if i % 2 == 0 then 2 * up else RightOf(n, up)
  }

  /** The leaves repeated as the tree repeats them, so that every level is even. */
  function FullLeaves(hs: seq<string>): (r: seq<string>)
    requires hs != []
    ensures r != [] && |r| == Pow2(Height(|hs|))
  {
    var k := Height(|hs|);
    PowPositive(k);
    seq(Pow2(k), i requires 0 <= i < Pow2(k) => hs[Place(|hs|, k, i)])
  }

  lemma PlaceOfPair(n: nat, k: nat, j: nat)
    requires n > 1 && Height(n) <= k && 2 * j < Pow2(k)
    ensures k > 0 && Height((n + 1) / 2) <= k - 1 && j < Pow2(k - 1) && 2 * j + 1 < Pow2(k)
    ensures var up := Place((n + 1) / 2, k - 1, j);
            Place(n, k, 2 * j) == 2 * up && Place(n, k, 2 * j + 1) == RightOf(n, up)
  {
    assert (2 * j) / 2 == j && (2 * j + 1) / 2 == j && (2 * j) % 2 == 0 && (2 * j + 1) % 2 == 1;
  }

  lemma FullAt(hs: seq<string>, i: nat)
    requires hs != [] && i < Pow2(Height(|hs|))
    ensures FullLeaves(hs)[i] == hs[Place(|hs|, Height(|hs|), i)]
  {
  }

  lemma SamePair(full: seq<string>, j: nat, hs: seq<string>, u: nat)
    requires 2 * j + 1 < |full| && 2 * u < |hs| && full[2 * j] == hs[2 * u] && full[2 * j + 1] == hs[RightOf(|hs|, u)]
    ensures PairText(full, j) == PairText(hs, u)
  {
  }

  /** A pair of the repeated leaves is a pair of the leaves. */
  lemma PairOfFull(hs: seq<string>, j: nat) returns (u: nat)
    requires |hs| > 1 && 2 * j < |FullLeaves(hs)|
    ensures 2 * u < |hs| && PairText(FullLeaves(hs), j) == PairText(hs, u)
    ensures Height((|hs| + 1) / 2) == Height(|hs|) - 1 && |FullLeaves(hs)| == 2 * Pow2(Height(|hs|) - 1)
    ensures j < Pow2(Height(|hs|) - 1) && u == Place((|hs| + 1) / 2, Height(|hs|) - 1, j)
  {
    var n, k := |hs|, Height(|hs|);
    PlaceOfPair(n, k, j);
    u := Place((n + 1) / 2, k - 1, j);
    FullAt(hs, 2 * j);
    FullAt(hs, 2 * j + 1);
    SamePair(FullLeaves(hs), j, hs, u);
  }

  /** The level above the repeated leaves is the level above, repeated. */
  lemma NextOfFull(h: Hash, hs: seq<string>)
    requires |hs| > 1
    ensures NextLevel(h, FullLeaves(hs)) == FullLeaves(NextLevel(h, hs))
  {
    var a, b := NextLevel(h, FullLeaves(hs)), FullLeaves(NextLevel(h, hs));
    forall j: nat | j < |b| ensures a[j] == b[j] {
      var u := PairOfFull(hs, j);
      assert a[j] == PairHash(h, FullLeaves(hs), j) == PairHash(h, hs, u) == NextLevel(h, hs)[u];
    }
    assert a == b;
  }

  /** The root is that of the full tree. */
  lemma {:induction false} RootOfFull(h: Hash, hs: seq<string>)
    requires hs != []
    ensures Root(h, hs) == Root(h, FullLeaves(hs))
    decreases |hs|
  {
    if |hs| == 1 {
      assert FullLeaves(hs) == hs;
    } else {
      RootOfFull(h, NextLevel(h, hs));
      NextOfFull(h, hs);
      PowPositive(Height(|hs|) - 1);
    }
  }

  /** Within its size every leaf of the full tree stands where it stood. */
  lemma {:induction false} PlaceOfLeaf(n: nat, k: nat, i: nat)
    requires n >= 1 && Height(n) <= k && i < Pow2(k) && i < n
    ensures Place(n, k, i) == i
  {
    if k == 0 {
    } else {
      PlaceOfLeaf((n + 1) / 2, k - 1, i / 2);
    }
  }

  /** What is hashed over the repeated leaves is what is hashed over the leaves. */
  lemma {:induction false} HashedInFull(h: Hash, hs: seq<string>, text: string)
    requires hs != [] && HashedInTree(h, FullLeaves(hs), text)
    ensures HashedInTree(h, hs, text)
    decreases |hs|
  {
    var full := FullLeaves(hs);
    if |hs| == 1 {
    } else {
      NextOfFull(h, hs);
      if j: nat :| 2 * j < |full| && text == PairText(full, j) {
        var u := PairOfFull(hs, j);
      } else {
        HashedInFull(h, NextLevel(h, hs), text);
      }
    }
  }

  lemma FullLeavesWidth(hs: seq<string>, width: nat)
    requires hs != [] && AllOfWidth(hs, width)
    ensures AllOfWidth(FullLeaves(hs), width)
  {
  }

  /** At equal height the roots are the same exactly when the repeated leaves are, or else texts hashed in the two collide. */
  lemma EqualHeightRoots(h: Hash, width: nat, hs: seq<string>, gs: seq<string>) returns (a: string, b: string)
    requires FixedWidth(h, width) && AllOfWidth(hs, width) && AllOfWidth(gs, width)
    requires hs != [] && gs != [] && Height(|hs|) == Height(|gs|)
    ensures FullLeaves(hs) == FullLeaves(gs) ==> Root(h, hs) == Root(h, gs)
    ensures Root(h, hs) == Root(h, gs) ==>
              FullLeaves(hs) == FullLeaves(gs) || (HashedInTree(h, hs, a) && HashedInTree(h, gs, b) && Collide(h, a, b))
  {
    a, b := "", "";
    RootOfFull(h, hs);
    RootOfFull(h, gs);
    if Root(h, hs) == Root(h, gs) {
      FullLeavesWidth(hs, width);
      FullLeavesWidth(gs, width);
      a, b := RootDeterminesLeaves(h, width, FullLeaves(hs), FullLeaves(gs));
      if FullLeaves(hs) != FullLeaves(gs) {
        HashedInFull(h, hs, a);
        HashedInFull(h, gs, b);
      }
    }
  }

  /** The d-th level above. */
  function Up(h: Hash, hs: seq<string>, d: nat): seq<string>
    decreases d
  {
    if d == 0 then hs else Up(h, NextLevel(h, hs), d - 1)
  }

  /** A level above is not empty, lower by so many levels and has the same root. */
  lemma {:induction false} UpInTree(h: Hash, width: nat, hs: seq<string>, d: nat)
    requires hs != [] && d <= Height(|hs|)
    ensures Up(h, hs, d) != [] && Height(|Up(h, hs, d)|) == Height(|hs|) - d && Root(h, Up(h, hs, d)) == Root(h, hs)
    ensures FixedWidth(h, width) && AllOfWidth(hs, width) ==> AllOfWidth(Up(h, hs, d), width)
    decreases d
  {
    if d == 0 {
    } else {
      if FixedWidth(h, width) {
        NextLevelWidth(h, width, hs);
      }
      UpInTree(h, width, NextLevel(h, hs), d - 1);
    }
  }

  /** What is hashed over a level above is hashed in the tree. */
  lemma {:induction false} HashedAbove(h: Hash, hs: seq<string>, d: nat, text: string)
    requires hs != [] && d <= Height(|hs|) && HashedInTree(h, Up(h, hs, d), text)
    ensures HashedInTree(h, hs, text)
    decreases d
  {
    if d == 0 {
    } else {
      HashedAbove(h, NextLevel(h, hs), d - 1, text);
    }
  }

  /** Each hash of a level above is that of a text hashed in the tree. */
  lemma {:induction false} HashedBelow(h: Hash, hs: seq<string>, d: nat, x: string) returns (text: string)
    requires hs != [] && 0 < d <= Height(|hs|) && x in Up(h, hs, d)
    ensures HashedInTree(h, hs, text) && h(text) == x
    decreases d
  {
    if d == 1 {
      assert Up(h, hs, 1) == Up(h, NextLevel(h, hs), 0) == NextLevel(h, hs);
      var i: nat :| i < |NextLevel(h, hs)| && NextLevel(h, hs)[i] == x;
      text := PairText(hs, i);
      assert NextLevel(h, hs)[i] == PairHash(h, hs, i);
    } else {
      text := HashedBelow(h, NextLevel(h, hs), d - 1, x);
    }
  }

  /**
   Trees of any sizes have the same root exactly when the leaves of the lower are those of the level of the higher at
   the lower's height, both repeated as the trees repeat them, or else texts hashed in the two collide.
   */
  lemma SameRootIffSameFullLeaves(h: Hash, width: nat, hs: seq<string>, gs: seq<string>) returns (a: string, b: string)
    requires FixedWidth(h, width) && AllOfWidth(hs, width) && AllOfWidth(gs, width)
    requires hs != [] && gs != [] && Height(|hs|) <= Height(|gs|)
    ensures var up := Up(h, gs, Height(|gs|) - Height(|hs|));
            && up != []
            && (FullLeaves(hs) == FullLeaves(up) ==> Root(h, hs) == Root(h, gs))
            && (Root(h, hs) == Root(h, gs) ==>
                  FullLeaves(hs) == FullLeaves(up) || (HashedInTree(h, hs, a) && HashedInTree(h, gs, b) && Collide(h, a, b)))
  {
    var d := Height(|gs|) - Height(|hs|);
    UpInTree(h, width, gs, d);
    a, b := EqualHeightRoots(h, width, hs, Up(h, gs, d));
    if HashedInTree(h, Up(h, gs, d), b) {
      HashedAbove(h, gs, d, b);
    }
  }

  lemma FullLeafAt(hs: seq<string>, i: nat)
    requires hs != [] && i < |FullLeaves(hs)|
    ensures FullLeaves(hs)[i] in hs
    ensures i < |hs| ==> FullLeaves(hs)[i] == hs[i]
  {
    if i < |hs| {
      PlaceOfLeaf(|hs|, Height(|hs|), i);
    }
  }

  /** The second list is the first with its greatest signature repeated, both in order. */
  predicate RepeatsGreatest(s: seq<string>, t: seq<string>) {
    && 0 < |s| <= |t| && t[..|s|] == s
    && forall i :: |s| <= i < |t| ==> t[i] == s[|s| - 1]
  }

  ghost predicate HashedAmong(h: Hash, u: seq<string>, x: string) {
    exists p: nat :: p < |u| && h(u[p]) == h(x)
  }

  /**
   Leaf hashes that are the same once repeated are the same at every place of the shorter list, and of signatures in
   it.
   */
  lemma SameFullLeavesSameHashes(h: Hash, s: seq<string>, t: seq<string>)
    requires |Sort(s)| == |s| && |Sort(t)| == |t| && 0 < |s| <= |t| && Height(|s|) == Height(|t|)
    requires FullLeaves(LeafHashes(h, s)) == FullLeaves(LeafHashes(h, t))
    ensures forall i: nat :: i < |s| ==> h(Sort(t)[i]) == h(Sort(s)[i])
    ensures forall i: nat :: i < |t| ==> HashedAmong(h, Sort(s), Sort(t)[i])
  {
    var x, y, u, v := LeafHashes(h, s), LeafHashes(h, t), Sort(s), Sort(t);
    HeightIsCeilLog2(|t|, Height(|t|));
    forall i: nat | i < |v| ensures HashedAmong(h, u, v[i]) && (i < |u| ==> h(v[i]) == h(u[i])) {
      FullLeafAt(x, i);
      FullLeafAt(y, i);
      assert y[i] == h(v[i]);
      var p: nat :| p < |x| && x[p] == y[i];
      assert h(u[p]) == x[p];
    }
  }

  /** What stands behind the greatest of a list and occurs in it is the greatest. */
  lemma BetweenGreatest(u: seq<string>, v: seq<string>, p: nat, i: nat)
    requires Ascending(u) && Ascending(v) && p < |u| <= i < |v| && v[|u| - 1] == u[|u| - 1]
    ensures u[p] == v[i] ==> v[i] == u[|u| - 1]
  {
    if u[p] == v[i] && v[i] != u[|u| - 1] {
      assert AtMost(u[p], u[|u| - 1]) && AtMost(v[|u| - 1], v[i]);
      LexAntisymmetric(Codes(v[i]), Codes(u[|u| - 1]));
      CodesInjective(v[i], u[|u| - 1]);
    }
  }

  lemma SameHashes(h: Hash, u: seq<string>, v: seq<string>) returns (p: nat, i: nat)
    requires Ascending(u) && Ascending(v) && 0 < |u| <= |v|
    requires forall i: nat :: i < |u| ==> h(v[i]) == h(u[i])
    requires forall i: nat :: i < |v| ==> HashedAmong(h, u, v[i])
    ensures p < |u| && i < |v| && (RepeatsGreatest(u, v) || Collide(h, u[p], v[i]))
  {
    p, i := 0, 0;
    if j: nat :| j < |u| && u[j] != v[j] {
      p, i := j, j;
    } else if j: nat :| |u| <= j < |v| && v[j] != u[|u| - 1] {
      assert HashedAmong(h, u, v[j]);
      i := j;
      p :| p < |u| && h(u[p]) == h(v[i]);
      BetweenGreatest(u, v, p, i);
    } else {
      assert v[..|u|] == u;
    }
  }

  /**
   Of two lists of signatures with trees of equal height and equal roots, the longer is the shorter with its greatest
   signature repeated, or else texts hashed in the two collide.
   */
  lemma EqualHeightLongerRepeatsGreatest(h: Hash, width: nat, s: seq<string>, t: seq<string>) returns (a: string, b: string)
    requires FixedWidth(h, width) && 0 < |s| <= |t| && Height(|s|) == Height(|t|)
    ensures LeafHashes(h, s) != [] && LeafHashes(h, t) != []
    ensures Root(h, LeafHashes(h, s)) == Root(h, LeafHashes(h, t)) ==>
              RepeatsGreatest(Sort(s), Sort(t)) || (HashedFor(h, s, a) && HashedFor(h, t, b) && Collide(h, a, b))
  {
    a, b := "", "";
    SortSorts(s);
    SortSorts(t);
    var x, y, u, v := LeafHashes(h, s), LeafHashes(h, t), Sort(s), Sort(t);
    if Root(h, x) == Root(h, y) {
      a, b := EqualHeightRoots(h, width, x, y);
      if FullLeaves(x) == FullLeaves(y) {
        SameFullLeavesSameHashes(h, s, t);
        var p, i := SameHashes(h, u, v);
        a, b := u[p], v[i];
        SameMultisetSameLength(u, s);
        SameMultisetSameLength(v, t);
      }
    }
  }

  lemma HeightGrows(m: nat, n: nat)
    requires 0 < m <= n
    ensures Height(m) <= Height(n)
  {
    HeightIsCeilLog2(n, Height(n));
    HeightIsCeilLog2(m, Height(n));
  }

  lemma {:induction false} HashedTextLength(h: Hash, width: nat, hs: seq<string>, text: string)
    requires FixedWidth(h, width) && AllOfWidth(hs, width) && HashedInTree(h, hs, text)
    ensures |text| == 2 * width
    decreases |hs|
  {
    if i: nat :| 2 * i < |hs| && text == PairText(hs, i) {
    } else {
      NextLevelWidth(h, width, hs);
      HashedTextLength(h, width, NextLevel(h, hs), text);
    }
  }

  /** Every signature is the text of a pair hashed in the tree over the other list. */
  ghost predicate AllPairTexts(h: Hash, s: seq<string>, t: seq<string>) {
    forall x | x in s :: HashedInTree(h, LeafHashes(h, t), x)
  }

  /** A lower tree has the root of a higher one only if its signatures are texts of pairs hashed in the higher, or texts collide. */
  lemma LowerTreeOfPairTexts(h: Hash, width: nat, s: seq<string>, t: seq<string>) returns (a: string, b: string)
    requires FixedWidth(h, width) && s != [] && t != [] && Height(|s|) < Height(|t|)
    ensures LeafHashes(h, s) != [] && LeafHashes(h, t) != []
    ensures Root(h, LeafHashes(h, s)) == Root(h, LeafHashes(h, t)) ==>
              AllPairTexts(h, s, t) || (HashedFor(h, s, a) && HashedFor(h, t, b) && Collide(h, a, b))
  {
    a, b := "", "";
    LeafHashesOfWidth(h, width, s);
    LeafHashesOfWidth(h, width, t);
    var x, y, d := LeafHashes(h, s), LeafHashes(h, t), Height(|t|) - Height(|s|);
    assert d == Height(|y|) - Height(|x|);
    if Root(h, x) == Root(h, y) {
      a, b := SameRootIffSameFullLeaves(h, width, x, y);
      if FullLeaves(x) == FullLeaves(Up(h, y, d)) {
        if c :| c in s && !HashedInTree(h, y, c) {
          HashAmongLeaves(h, s, c);
          SameFullLeavesHold(x, Up(h, y, d), h(c));
          a := c;
          b := HashedBelow(h, y, d, h(c));
        }
      } else {
        InTreeHashedFor(h, s, a);
        InTreeHashedFor(h, t, b);
      }
    }
  }

  lemma InTreeHashedFor(h: Hash, s: seq<string>, text: string)
    requires HashedInTree(h, LeafHashes(h, s), text)
    ensures HashedFor(h, s, text)
  {
  }

  lemma LeafHashesOfWidth(h: Hash, width: nat, s: seq<string>)
    requires FixedWidth(h, width)
    ensures |LeafHashes(h, s)| == |s| && AllOfWidth(LeafHashes(h, s), width)
  {
    SortSorts(s);
  }

  lemma HashAmongLeaves(h: Hash, s: seq<string>, x: string)
    requires x in s
    ensures h(x) in LeafHashes(h, s)
  {
    SortSorts(s);
    SameMultisetSameLength(Sort(s), s);
    var i: nat :| i < |Sort(s)| && Sort(s)[i] == x;
    assert LeafHashes(h, s)[i] == h(x);
  }

  /** Leaves that are the same once repeated hold the same hashes. */
  lemma SameFullLeavesHold(hs: seq<string>, gs: seq<string>, x: string)
    requires hs != [] && gs != [] && FullLeaves(hs) == FullLeaves(gs) && x in hs
    ensures x in gs
  {
    var i: nat :| i < |hs| && hs[i] == x;
    HeightIsCeilLog2(|hs|, Height(|hs|));
    FullLeafAt(hs, i);
    FullLeafAt(gs, i);
  }

  /**
   When two lists of signatures have the same root: the longer is the shorter with its greatest signature repeated, or
   the tree over the shorter is lower and all its signatures are texts of pairs hashed in the other, or else texts
   hashed in the two collide.
   */
  lemma WhenRootsCoincide(h: Hash, width: nat, s: seq<string>, t: seq<string>) returns (a: string, b: string)
    requires FixedWidth(h, width) && 0 < |s| <= |t|
    ensures LeafHashes(h, s) != [] && LeafHashes(h, t) != []
    ensures Root(h, LeafHashes(h, s)) == Root(h, LeafHashes(h, t)) ==>
              || (Height(|s|) == Height(|t|) && RepeatsGreatest(Sort(s), Sort(t)))
              || (Height(|s|) < Height(|t|) && AllPairTexts(h, s, t))
              || (HashedFor(h, s, a) && HashedFor(h, t, b) && Collide(h, a, b))
  {
    HeightGrows(|s|, |t|);
    if Height(|s|) == Height(|t|) {
      a, b := EqualHeightLongerRepeatsGreatest(h, width, s, t);
    } else {
      a, b := LowerTreeOfPairTexts(h, width, s, t);
    }
  }

  /**
   Signatures as long as two hashes are the only danger: if one of the lower tree has another length, trees of
   different heights have different roots, or texts hashed in them collide.
   */
  lemma DifferentHeightsDifferentRoots(h: Hash, width: nat, s: seq<string>, t: seq<string>, x: string)
    returns (a: string, b: string)
    requires FixedWidth(h, width) && s != [] && t != [] && Height(|s|) < Height(|t|) && x in s && |x| != 2 * width
    ensures LeafHashes(h, s) != [] && LeafHashes(h, t) != []
    ensures Root(h, LeafHashes(h, s)) == Root(h, LeafHashes(h, t)) ==>
              HashedFor(h, s, a) && HashedFor(h, t, b) && Collide(h, a, b)
  {
    a, b := LowerTreeOfPairTexts(h, width, s, t);
    if AllPairTexts(h, s, t) {
      HashedTextLength(h, width, LeafHashes(h, t), x);
    }
  }

  /**
   There are such signatures, whatever the hash: every tree of two or more has the root of the tree over one signature,
   the two hashes below its root put together.
   */
  lemma PairTextAsSignature(h: Hash, t: seq<string>) returns (x: string)
    requires |t| >= 2
    ensures LeafHashes(h, t) != [] && LeafHashes(h, [x]) != []
    ensures Root(h, LeafHashes(h, t)) == Root(h, LeafHashes(h, [x]))
    ensures |t| == 2 && AtMost(t[0], t[1]) ==> x == h(t[0]) + h(t[1])
  {
    SortSorts(t);
    var y := LeafHashes(h, t);
    x := TopPair(h, y);
    assert [x][1..] == [] && Sort([x]) == [x];
    if |t| == 2 && AtMost(t[0], t[1]) {
      SortedPair(t);
      assert y == [h(t[0]), h(t[1])];
    }
  }

  lemma SortedPair(t: seq<string>)
    requires |t| == 2 && AtMost(t[0], t[1])
    ensures Sort(t) == t
  {
    SortSorts(t);
    SortedIsUnique(Sort(t), t);
  }

  lemma {:induction false} TopPair(h: Hash, hs: seq<string>) returns (x: string)
    requires |hs| >= 2
    ensures Root(h, hs) == h(x) && HashedInTree(h, hs, x)
    ensures |hs| == 2 ==> x == hs[0] + hs[1]
    decreases |hs|
  {
    if |hs| == 2 {
      x := PairText(hs, 0);
      assert NextLevel(h, hs)[0] == PairHash(h, hs, 0);
    } else {
      x := TopPair(h, NextLevel(h, hs));
    }
  }

  /**
   There are such lists, whatever the hash: the greatest of an odd number of signatures, at least three, can be given
   once more.
   */
  lemma RepeatedGreatestSameRoot(h: Hash, s: seq<string>, g: string)
    requires |s| >= 3 && |s| % 2 == 1 && g in s && forall x | x in s :: AtMost(x, g)
    ensures LeafHashes(h, s) != [] && LeafHashes(h, s + [g]) != []
    ensures Root(h, LeafHashes(h, s)) == Root(h, LeafHashes(h, s + [g]))
  {
    SortWithGreatest(s, g);
    SortSorts(s);
    var x := LeafHashes(h, s);
    assert LeafHashes(h, s + [g]) == x + [x[|x| - 1]];
    RepeatedLastSameRoot(h, x);
  }

  /** A greatest element more stands at the end, and so does one that was there. */
  lemma SortWithGreatest(s: seq<string>, g: string)
    requires g in s && forall x | x in s :: AtMost(x, g)
    ensures Sort(s + [g]) == Sort(s) + [g] && |Sort(s)| == |s| && Sort(s)[|s| - 1] == g
  {
    var u := Sort(s);
    SortSorts(s);
    SameMultisetSameLength(u, s);
    AppendGreatest(u, g);
    SortSorts(s + [g]);
    MultisetOfAppend(s, u, g);
    SortedIsUnique(Sort(s + [g]), u + [g]);
  }

  lemma MultisetOfAppend(s: seq<string>, u: seq<string>, g: string)
    requires multiset(s) == multiset(u)
    ensures multiset(s + [g]) == multiset(u + [g])
  {
    assert multiset(s + [g]) == multiset(s) + multiset{g} && multiset(u + [g]) == multiset(u) + multiset{g};
  }

  lemma AppendGreatest(u: seq<string>, g: string)
    requires Ascending(u) && g in u && forall x | x in u :: AtMost(x, g)
    ensures Ascending(u + [g]) && u[|u| - 1] == g
  {
    var i :| 0 <= i < |u| && u[i] == g;
    LexReflexive(Codes(g));
    assert AtMost(g, u[|u| - 1]) && AtMost(u[|u| - 1], g);
    LexAntisymmetric(Codes(g), Codes(u[|u| - 1]));
    CodesInjective(g, u[|u| - 1]);
  }

  /**
   An odd level of three or more has the same root as the level with its last hash repeated, whatever the hash.
   */
  lemma RepeatedLastSameRoot(h: Hash, hs: seq<string>)
    requires |hs| >= 3 && |hs| % 2 == 1
    ensures Root(h, hs) == Root(h, hs + [hs[|hs| - 1]])
  {
    var gs := hs + [hs[|hs| - 1]];
    forall i: nat | 2 * i < |hs| ensures PairHash(h, hs, i) == PairHash(h, gs, i) {
      assert gs[RightOf(|gs|, i)] == hs[RightOf(|hs|, i)];
    }
    assert NextLevel(h, hs) == NextLevel(h, gs);
  }
}
