/** The linked tree of internal/service/audit/merkle.go, proved against the hash sequences of module Merkle. */
module MerkleTree {
  import opened StringOrder
  import opened Wrappers
  import M = Merkle
  import B = BatchProofs

  /** Only the parent pointer is ever changed after a node is made. */
  class MerkleNode {
    const Hash: string
    const Left: MerkleNode?
    const Right: MerkleNode?
    var Parent: MerkleNode?

    constructor (hash: string, left: MerkleNode?, right: MerkleNode?)
      ensures Hash == hash && Left == left && Right == right && Parent == null
    {
      Hash := hash;
      Left := left;
      Right := right;
      Parent := null;
    }
  }

  type Level = seq<MerkleNode>

  ghost predicate Distinct(level: Level) {
    forall i, j :: 0 <= i < j < |level| ==> level[i] != level[j]
  }

  ghost predicate Carries(level: Level, hs: seq<string>)
  {
    |hs| == |level| && forall i :: 0 <= i < |level| ==> level[i].Hash == hs[i]
  }

  /** Each node made so far points down to its pair, with an odd last node standing on both sides. */
  ghost predicate Paired(below: Level, above: Level) {
    |above| <= (|below| + 1) / 2 &&
    forall k: nat :: k < |above| ==> above[k].Left == below[2 * k] && above[k].Right == below[M.RightOf(|below|, k)]
  }

  ghost predicate PointsDown(below: Level, above: Level) {
    |above| == (|below| + 1) / 2 && Paired(below, above)
  }

  /** One more parent of a pair carries the next hash of the level above. */
  lemma PairedMore(h: M.Hash, below: Level, hs: seq<string>, above: Level, parent: MerkleNode)
    requires Carries(below, hs) && Paired(below, above) && 2 * |above| < |below|
    requires parent.Left == below[2 * |above|] && parent.Right == below[M.RightOf(|below|, |above|)]
    requires parent.Hash == M.PairHash(h, hs, |above|) && Carries(above, M.NextLevel(h, hs)[..|above|])
    ensures Paired(below, above + [parent])
    ensures Carries(above + [parent], M.NextLevel(h, hs)[..|above| + 1])
  {
    assert M.NextLevel(h, hs)[|above|] == M.PairHash(h, hs, |above|);
  }

  /** Both nodes of a pair point up to the node above them. */
  ghost predicate PointsUp(below: Level, above: Level)
    reads (set n | n in below)`Parent
  {
    |above| == (|below| + 1) / 2 &&
    forall k: nat :: k < |above| ==> below[2 * k].Parent == above[k] && below[M.RightOf(|below|, k)].Parent == above[k]
  }

  /** The parent of a pair of nodes, with the pair pointing up to it. */
  method NewParent(h: M.Hash, left: MerkleNode, right: MerkleNode) returns (parent: MerkleNode)
    modifies left`Parent, right`Parent
    ensures fresh(parent) && parent.Hash == h(left.Hash + right.Hash)
    ensures parent.Left == left && parent.Right == right && parent.Parent == null
    ensures left.Parent == parent && right.Parent == parent
  {
    var combined := left.Hash + right.Hash;
    parent := new MerkleNode(h(combined), left, right);
    left.Parent := parent;
    right.Parent := parent;
  }

  /** One turn of the level loop: the parents of a level, left to right. */
  method BuildLevel(h: M.Hash, nodes: Level, ghost hs: seq<string>) returns (newLevel: Level)
    requires Distinct(nodes) && Carries(nodes, hs)
    modifies (set n | n in nodes)`Parent
    ensures (forall n | n in newLevel :: fresh(n) && n.Parent == null) && Distinct(newLevel)
    ensures Carries(newLevel, M.NextLevel(h, hs))
    ensures PointsDown(nodes, newLevel) && PointsUp(nodes, newLevel)
  {
    newLevel := [];
    ghost var up := M.NextLevel(h, hs);
    var i := 0;
    while i < |nodes|
      invariant i == 2 * |newLevel| && |newLevel| <= |up|
      invariant forall n | n in newLevel :: fresh(n) && n.Parent == null
      invariant Paired(nodes, newLevel) && Carries(newLevel, up[..|newLevel|])
      invariant forall k :: 0 <= k < |newLevel| ==>
                  nodes[2 * k].Parent == newLevel[k] && nodes[M.RightOf(|nodes|, k)].Parent == newLevel[k]
    {
      var j := i;
      if i + 1 < |nodes| {
        j := i + 1;
      }
      var parent := NewParent(h, nodes[i], nodes[j]);
      PairedMore(h, nodes, hs, newLevel, parent);
      newLevel := newLevel + [parent];
      i := i + 2;
    }
    assert up[..|newLevel|] == up;
    ParentsDistinct(nodes, newLevel);
  }

  lemma ParentsDistinct(below: Level, above: Level)
    requires Distinct(below) && PointsDown(below, above)
    ensures Distinct(above)
  {
    forall i, j | 0 <= i < j < |above| ensures above[i] != above[j] {
      assert above[i].Left == below[2 * i] && above[j].Left == below[2 * j];
    }
  }

  class MerkleTree {
    const computeHash: M.Hash
    var Root: MerkleNode?
    var Leaves: Level
    ghost var levels: seq<Level>
    ghost var hashes: seq<seq<string>>
    ghost var Repr: set<MerkleNode>

    /** The leaf hashes, empty for the empty tree. */
    ghost function LeafHashes(): seq<string>
      reads this
    {
      if hashes == [] then [] else hashes[0]
    }

    ghost predicate LevelOk(l: nat)
      requires l < |levels| && l < |hashes|
      reads this`levels, this`hashes, this`Repr
    {
      var level := levels[l];
      level != [] && Distinct(level) && (forall n | n in level :: n in Repr) && Carries(level, hashes[l])
    }

    /** Level l and the one above it. */
    ghost predicate LinkOk(l: nat)
      requires l + 1 < |levels| && l + 1 < |hashes| && LevelOk(l) && LevelOk(l + 1)
      reads this`levels, this`hashes, this`Repr, Repr
    {
      && |levels[l]| > 1 && hashes[l + 1] == M.NextLevel(computeHash, hashes[l])
      && PointsDown(levels[l], levels[l + 1]) && PointsUp(levels[l], levels[l + 1])
    }

    ghost predicate Stacked()
      reads this`levels, this`hashes, this`Repr, Repr
    {
      && |levels| == |hashes|
      && (forall l: nat :: l < |levels| ==> LevelOk(l))
      && (forall l: nat :: l + 1 < |levels| ==> LinkOk(l))
    }

    ghost predicate Valid()
      reads this, Repr
    {
      && Stacked()
      && (levels == [] ==> Root == null && Leaves == [])
      && (levels != [] ==>
            var top := levels[|levels| - 1];
            LevelOk(|levels| - 1) && Leaves == levels[0] && |top| == 1 && Root == top[0] && top[0].Parent == null)
    }

    constructor (computeHash: M.Hash, signatures: seq<string>)
      ensures Valid() && fresh(Repr) && this.computeHash == computeHash
      ensures LeafHashes() == M.LeafHashes(computeHash, signatures)
    {
      this.computeHash := computeHash;
      Root := null;
      Leaves := [];
      levels := [];
      hashes := [];
      Repr := {};
      new;
      SortSorts(signatures);
      if |signatures| != 0 {
        var sortedSignatures := Sort(signatures);
        var leaves := MakeLeaves(computeHash, sortedSignatures);
        Build(leaves, M.LeafHashes(computeHash, signatures));
      }
    }

    /** The level loop. */
    method Build(leaves: Level, ghost leafHashes: seq<string>)
      requires leaves != [] && Distinct(leaves) && Carries(leaves, leafHashes)
      requires forall n | n in leaves :: n.Parent == null
      modifies this, (set n | n in leaves)`Parent
      ensures Valid() && LeafHashes() == leafHashes
      ensures fresh(Repr - set n | n in leaves)
    {
      Leaves := leaves;
      levels := [leaves];
      hashes := [leafHashes];
      Repr := set n | n in leaves;
      assert LevelOk(0);
      var nodes := leaves;
      while |nodes| > 1
        invariant |levels| > 0 && nodes == levels[|levels| - 1] && nodes != []
        invariant levels[0] == leaves && Leaves == leaves && hashes != [] && hashes[0] == leafHashes
        invariant Stacked() && TopApart()
        invariant fresh(Repr - set n | n in leaves)
        decreases |nodes|
      {
        nodes := ExtendLevels(nodes);
      }
      assert LevelOk(|levels| - 1);
      Root := nodes[0];
    }

    /** The top level shares no node with the levels below it and has no parents yet. */
    ghost predicate TopApart()
      requires levels != []
      reads this`levels, this`Repr, Repr`Parent
    {
      var top := levels[|levels| - 1];
      && (forall l, n :: 0 <= l < |levels| - 1 && n in levels[l] ==> n !in top)
      && (forall n | n in top :: n in Repr && n.Parent == null)
    }

    /** Puts the next level on top. */
    method ExtendLevels(nodes: Level) returns (newLevel: Level)
      requires Stacked() && levels != [] && nodes == levels[|levels| - 1] && |nodes| > 1 && TopApart()
      modifies this`levels, this`hashes, this`Repr, Repr`Parent
      ensures Stacked() && levels == old(levels) + [newLevel] && old(hashes) <= hashes
      ensures TopApart() && fresh(Repr - old(Repr))
      ensures |newLevel| == (|nodes| + 1) / 2
    {
      ghost var top := |levels| - 1;
      assert LevelOk(top);
      newLevel := BuildLevel(computeHash, nodes, hashes[top]);
      LinksKept();
      Push(newLevel);
    }

    /** Giving parents to the top level leaves the stack as it was. */
    twostate lemma LinksKept()
      requires old(levels) != [] && old(Stacked()) && old(TopApart())
      requires levels == old(levels) && hashes == old(hashes) && Repr == old(Repr)
      requires forall n | n in Repr && n !in levels[|levels| - 1] :: n.Parent == old(n.Parent)
      ensures Stacked()
    {
      forall l: nat | l < |levels| ensures LevelOk(l) {
        assert old(LevelOk(l));
      }
      forall l: nat | l + 1 < |levels| ensures LinkOk(l) {
        assert old(LevelOk(l)) && old(LevelOk(l + 1)) && old(LinkOk(l));
      }
    }

    ghost method Push(newLevel: Level)
      requires Stacked() && levels != []
      requires var top := |levels| - 1;
               && |levels[top]| > 1 && Carries(newLevel, M.NextLevel(computeHash, hashes[top]))
               && PointsDown(levels[top], newLevel) && PointsUp(levels[top], newLevel)
      requires Distinct(newLevel) && forall n | n in newLevel :: n !in Repr && n.Parent == null
      modifies this`levels, this`hashes, this`Repr
      ensures levels == old(levels) + [newLevel] && Repr == old(Repr) + set n | n in newLevel
      ensures Stacked() && TopApart()
      ensures |hashes| == |old(hashes)| + 1 && old(hashes) <= hashes
    {
      var top := |levels| - 1;
      assert LevelOk(top);
      levels := levels + [newLevel];
      hashes := hashes + [M.NextLevel(computeHash, hashes[top])];
      Repr := Repr + (set n | n in newLevel);
      forall l: nat | l <= top ensures LevelOk(l) {
        assert old(LevelOk(l));
      }
      assert LevelOk(top + 1);
      assert LinkOk(top);
      forall l: nat | l < top ensures LinkOk(l) {
        assert old(LinkOk(l));
      }
      forall l, n | 0 <= l <= top && n in levels[l] ensures n !in newLevel {
        assert old(LevelOk(l));
      }
    }

    /** The hash at the top is the root of the leaf hashes. */
    lemma RootOfLevel(l: nat)
      requires Stacked() && l < |levels|
      ensures hashes[0] != [] && hashes[l] != [] && M.Root(computeHash, hashes[0]) == M.Root(computeHash, hashes[l])
    {
      assert LevelOk(l);
      if l == 0 {
      } else {
        RootOfLevel(l - 1);
        assert LevelOk(l - 1) && LinkOk(l - 1);
      }
    }

    method GetRootHash() returns (hash: string)
      requires Valid()
      ensures LeafHashes() == [] ==> hash == ""
      ensures LeafHashes() != [] ==> hash == M.Root(computeHash, LeafHashes())
    {
      if levels != [] {
        RootOfLevel(|levels| - 1);
        assert LevelOk(|levels| - 1);
      }
      if Root == null {
        return "";
      }
      return Root.Hash;
    }

    /** The first leaf with the hash, if there is one. */
    method FindLeafNode(targetHash: string) returns (leaf: MerkleNode?, ghost place: nat)
      ensures leaf == null ==> forall i :: 0 <= i < |Leaves| ==> Leaves[i].Hash != targetHash
      ensures leaf != null ==> place < |Leaves| && leaf == Leaves[place] && leaf.Hash == targetHash
      ensures leaf != null ==> forall i :: 0 <= i < place ==> Leaves[i].Hash != targetHash
    {
      for i := 0 to |Leaves|
        invariant forall k :: 0 <= k < i ==> Leaves[k].Hash != targetHash
      {
        if Leaves[i].Hash == targetHash {
          return Leaves[i], i;
        }
      }
      return null, 0;
    }

    /**
     Walks up from the first leaf with the target hash: the result is the path of that leaf, and so leads from the
     hash to the root hash in exactly as many steps as the tree is high. For any other hash it is empty.
     */
    method BuildProof(targetHash: string) returns (proof: seq<M.ProofNode>)
      requires Valid()
      ensures targetHash !in LeafHashes() ==> proof == []
      ensures targetHash in LeafHashes() ==>
                && M.Fold(computeHash, targetHash, proof) == M.Root(computeHash, LeafHashes())
                && |proof| == M.Height(|LeafHashes()|)
                && exists i :: 0 <= i < |LeafHashes()| && LeafHashes()[i] == targetHash && targetHash !in LeafHashes()[..i]
                               && proof == M.Path(computeHash, LeafHashes(), i)
      ensures proof == B.PathOf(computeHash, LeafHashes(), targetHash)
    {
      proof := [];
      var currentNode, place := FindLeafNode(targetHash);
      ghost var hs := LeafHashes();
      if levels != [] {
        assert LevelOk(0);
      }
      if currentNode == null {
        return;
      }
      assert hs[place] == targetHash;
      assert hs[place] in hs && (forall k :: 0 <= k < place ==> hs[k] == Leaves[k].Hash);
      assert At(0, place, currentNode);
      ghost var trail := TrailFrom(0, place, currentNode);
      proof := WalkUp(currentNode, trail);
      M.PathLeadsToRoot(computeHash, hs, place);
      B.FirstWithIs(hs, targetHash, place);
    }

    /** The paths of all targets, one after the other. */
    method GenerateBatchProof(targetSignatures: seq<string>) returns (r: Option<B.BatchProof>)
      requires Valid()
      ensures r == if LeafHashes() == [] || targetSignatures == [] then None
                   else Some(B.ProofOver(computeHash, LeafHashes(), targetSignatures))
    {
      if levels != [] {
        assert LevelOk(0);
      }
      if Root == null || |targetSignatures| == 0 {
        return None;
      }
      var leafHashes := HashAll(computeHash, Sort(targetSignatures));
      assert leafHashes == M.LeafHashes(computeHash, targetSignatures);
      var proofElements := BuildProofs(leafHashes);
      var rootHash := GetRootHash();
      return Some(B.BatchProof(rootHash, leafHashes, proofElements));
    }

    /** The loop over the target hashes. */
    method BuildProofs(leafHashes: seq<string>) returns (proofElements: seq<M.ProofNode>)
      requires Valid()
      ensures proofElements == B.PathsOf(computeHash, LeafHashes(), leafHashes)
    {
      proofElements := [];
      for i := 0 to |leafHashes|
        invariant proofElements == B.PathsOf(computeHash, LeafHashes(), leafHashes[..i])
      {
        var proof := BuildProof(leafHashes[i]);
        B.PathsOfNext(computeHash, LeafHashes(), leafHashes, i);
        proofElements := proofElements + proof;
      }
      assert leafHashes[..|leafHashes|] == leafHashes;
    }

    method VerifyProof(proof: Option<B.BatchProof>) returns (ok: bool)
      requires Valid()
      ensures ok <==> proof.Some? && LeafHashes() != [] && B.AcceptedBy(computeHash, LeafHashes(), proof.value)
    {
      if levels != [] {
        assert LevelOk(0);
      }
      if proof.None? || Root == null {
        return false;
      }
      var rootHash := GetRootHash();
      if proof.value.rootHash != rootHash {
        return false;
      }
      var computedRoot := B.ComputeRootFromProof(computeHash, proof.value.leafHashes, proof.value.proofElements);
      return computedRoot == proof.value.rootHash;
    }

    /** The node stands at place j of level l. */
    ghost predicate At(l: nat, j: nat, node: MerkleNode)
      reads this`levels, this`hashes, this`Repr
    {
      l < |levels| && l < |hashes| && LevelOk(l) && j < |levels[l]| && levels[l][j] == node
    }

    /** The path from place j of level l up. */
    ghost function PathFrom(l: nat, j: nat): seq<M.ProofNode>
      reads this`hashes
    {
      if l < |hashes| && j < |hashes[l]| then M.Path(computeHash, hashes[l], j) else []
    }

    /** The nodes from a place of a level up to the top, and that their steps are the path from there. */
    lemma TrailFrom(l: nat, j: nat, node: MerkleNode) returns (trail: seq<MerkleNode>)
      requires Valid() && At(l, j, node)
      ensures Trail(trail) && trail[0] == node && StepsOf(trail) == PathFrom(l, j)
      decreases |levels| - l
    {
      TopHasNoParent(l, j);
      if node.Parent == null {
        trail := [node];
      } else {
        StepUp(l, j, node);
        var above := TrailFrom(l + 1, j / 2, node.Parent);
        trail := [node] + above;
        assert trail[1..] == above;
      }
    }

    /** The node above, and the step of the path that leads there. */
    lemma StepUp(l: nat, j: nat, node: MerkleNode)
      requires Valid() && At(l, j, node) && node.Parent != null
      ensures l + 1 < |levels| && At(l + 1, j / 2, node.Parent)
      ensures node.Parent.Left != null && node.Parent.Right != null
      ensures PathFrom(l, j) == [StepFrom(node, node.Parent)] + PathFrom(l + 1, j / 2)
    {
      NodeAbove(l, j, node);
      assert LevelOk(l) && LevelOk(l + 1);
      SiblingAbove(levels[l], hashes[l], j, node, node.Parent);
    }

    lemma NodeAbove(l: nat, j: nat, node: MerkleNode)
      requires Valid() && At(l, j, node) && node.Parent != null
      ensures l + 1 < |levels| && At(l + 1, j / 2, node.Parent)
      ensures hashes[l + 1] == M.NextLevel(computeHash, hashes[l]) && |hashes[l]| > 1
      ensures node.Parent.Left == levels[l][2 * (j / 2)] && node.Parent.Right == levels[l][M.RightOf(|levels[l]|, j / 2)]
    {
      TopHasNoParent(l, j);
      assert LevelOk(l + 1) && LinkOk(l);
      assert node.Parent == levels[l + 1][j / 2];
    }

    /** Only the node at the top has no parent. */
    lemma TopHasNoParent(l: nat, j: nat)
      requires Valid() && l < |levels| && LevelOk(l) && j < |levels[l]|
      ensures levels[l][j].Parent == null <==> l == |levels| - 1
    {
      if l + 1 < |levels| {
        assert LevelOk(l + 1) && LinkOk(l);
        assert levels[l][j].Parent == levels[l + 1][j / 2];
      }
    }
  }

  /** The step of a path from a node to its parent. */
  ghost function StepFrom(node: MerkleNode, parent: MerkleNode): M.ProofNode
    requires parent.Left != null && parent.Right != null
  {
    if parent.Left == node then M.ProofNode(parent.Right.Hash, false) else M.ProofNode(parent.Left.Hash, true)
  }

  /** The sibling is the node of the pair that one does not come from. */
  lemma SiblingAbove(below: Level, hs: seq<string>, j: nat, node: MerkleNode, parent: MerkleNode)
    requires Distinct(below) && Carries(below, hs) && j < |below| && below[j] == node
    requires parent.Left == below[2 * (j / 2)] && parent.Right == below[M.RightOf(|below|, j / 2)]
    ensures M.SiblingOf(hs, j) == StepFrom(node, parent)
  {
  }

  /** Each node is the parent of the one before, and the last has none. */
  ghost predicate Trail(trail: seq<MerkleNode>)
    reads (set n | n in trail)`Parent
  {
    trail != [] &&
    if |trail| == 1 then trail[0].Parent == null
    else trail[0].Parent == trail[1] && trail[1].Left != null && trail[1].Right != null && Trail(trail[1..])
  }

  ghost function StepsOf(trail: seq<MerkleNode>): seq<M.ProofNode> {
    if |trail| <= 1 || trail[1].Left == null || trail[1].Right == null then []
    else [StepFrom(trail[0], trail[1])] + StepsOf(trail[1..])
  }

  lemma Regroup(proof: seq<M.ProofNode>, step: M.ProofNode, rest: seq<M.ProofNode>)
    ensures proof + [step] + rest == proof + ([step] + rest)
  {
  }

  /** The loop of buildProof, from the first node of a trail. */
  method WalkUp(leaf: MerkleNode, ghost trail: seq<MerkleNode>) returns (proof: seq<M.ProofNode>)
    requires Trail(trail) && trail[0] == leaf
    ensures proof == StepsOf(trail)
  {
    proof := [];
    var node: MerkleNode := leaf;
    ghost var rest := trail;
    assert [] + StepsOf(trail) == StepsOf(trail);
    while node.Parent != null
      invariant Trail(rest) && node == rest[0] && proof + StepsOf(rest) == StepsOf(trail)
      decreases |rest|
    {
      var parent: MerkleNode := node.Parent;
      Regroup(proof, StepFrom(node, parent), StepsOf(rest[1..]));
      if parent.Left == node {
        if parent.Right != null {
          proof := proof + [M.ProofNode(parent.Right.Hash, false)];
        }
      } else {
        if parent.Left != null {
          proof := proof + [M.ProofNode(parent.Left.Hash, true)];
        }
      }
      node := parent;
      rest := rest[1..];
    }
    assert proof + [] == proof;
  }

  method HashAll(computeHash: M.Hash, texts: seq<string>) returns (hashes: seq<string>)
    ensures |hashes| == |texts| && forall i :: 0 <= i < |texts| ==> hashes[i] == computeHash(texts[i])
  {
    hashes := [];
    for i := 0 to |texts|
      invariant |hashes| == i && forall k :: 0 <= k < i ==> hashes[k] == computeHash(texts[k])
    {
      hashes := hashes + [computeHash(texts[i])];
    }
  }

  method MakeLeaves(computeHash: M.Hash, sortedSignatures: seq<string>) returns (leaves: Level)
    ensures |leaves| == |sortedSignatures| && Distinct(leaves)
    ensures forall i :: 0 <= i < |leaves| ==>
              fresh(leaves[i]) && leaves[i].Hash == computeHash(sortedSignatures[i]) && leaves[i].Parent == null
  {
    leaves := [];
    for i := 0 to |sortedSignatures|
      invariant |leaves| == i && Distinct(leaves)
      invariant forall k :: 0 <= k < i ==>
                  fresh(leaves[k]) && leaves[k].Hash == computeHash(sortedSignatures[k]) && leaves[k].Parent == null
    {
      var leaf := new MerkleNode(computeHash(sortedSignatures[i]), null, null);
      leaves := leaves + [leaf];
    }
  }
}
