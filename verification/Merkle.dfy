/** Merkle branch verification, as used for every light-client proof. */
module Merkle {
  import opened Bytes

  type HashPair = (B256, B256) -> B256

  /** The root that `branch` computes for `leaf` at position `index` of its layer. */
  function Fold(hash: HashPair, leaf: B256, branch: seq<B256>, index: nat): B256
    decreases |branch|
  {
    if branch == [] then leaf
    else Fold(hash, Step(hash, leaf, branch[0], index), branch[1..], index / 2)
  }

  function Step(hash: HashPair, leaf: B256, sibling: B256, index: nat): B256 {
    if index % 2 == 0 then hash(leaf, sibling) else hash(sibling, leaf)
  }

  function StepInput(leaf: B256, sibling: B256, index: nat): (B256, B256) {
    if index % 2 == 0 then (leaf, sibling) else (sibling, leaf)
  }

  /** Every pair hashed while evaluating `Fold`. */
  function HashInputs(hash: HashPair, leaf: B256, branch: seq<B256>, index: nat): set<(B256, B256)>
    decreases |branch|
  {
    if branch == [] then {}
    else {StepInput(leaf, branch[0], index)}
         + HashInputs(hash, Step(hash, leaf, branch[0], index), branch[1..], index / 2)
  }

  /** No two different pairs in `inputs` collide. A 32-byte hash cannot be
      injective, so collision-freeness is only ever asked of the pairs actually hashed. */
  ghost predicate CollisionFreeOn(hash: HashPair, inputs: set<(B256, B256)>) {
    forall p, q :: p in inputs && q in inputs && hash(p.0, p.1) == hash(q.0, q.1) ==> p == q
  }

  function FloorLog2(value: nat): nat
    requires value > 0
  {
    if value == 1 then 0 else 1 + FloorLog2(value / 2)
  }

  function Pow2(n: nat): (p: nat)
    ensures p > 0
  {
    if n == 0 then 1 else 2 * Pow2(n - 1)
  }

  function SubtreeIndex(gindex: nat): nat
    requires gindex > 0
  {
    gindex % Pow2(FloorLog2(gindex))
  }

  method IsValidMerkleBranch(hash: HashPair, leaf: B256, branch: seq<B256>, depth: nat, index: nat, root: B256)
    returns (valid: bool)
    ensures valid <==> |branch| == depth && Fold(hash, leaf, branch, index) == root
  {
    if |branch| != depth {
      return false;
    }
    var node: B256, position: nat := leaf, index;
    for i := 0 to |branch|
      invariant Fold(hash, node, branch[i..], position) == Fold(hash, leaf, branch, index)
    {
      assert branch[i..][1..] == branch[i + 1..];
      node := if position % 2 == 0 then hash(node, branch[i]) else hash(branch[i], node);
      position := position / 2;
    }
    valid := node == root;
  }

  predicate AllZero(items: seq<B256>) {
    forall i :: 0 <= i < |items| ==> items[i] == ZERO_ROOT
  }

  /** Acceptance of a possibly zero-padded branch for a generalized index. */
  predicate ValidNormalized(hash: HashPair, leaf: B256, branch: seq<B256>, gindex: nat, root: B256)
    requires gindex > 0
  {
    var depth := FloorLog2(gindex);
    var extra := SaturatingSub(|branch|, depth);
    && AllZero(branch[..extra])
    && |branch[extra..]| == depth
    && Fold(hash, leaf, branch[extra..], SubtreeIndex(gindex)) == root
  }

  method IsValidNormalizedMerkleBranch(hash: HashPair, leaf: B256, branch: seq<B256>, gindex: nat, root: B256)
    returns (valid: bool)
    requires gindex > 0
    ensures valid == ValidNormalized(hash, leaf, branch, gindex, root)
  {
    var depth := FloorLog2(gindex);
    var extra := SaturatingSub(|branch|, depth);
    for i := 0 to extra
      invariant forall k :: 0 <= k < i ==> branch[k] == ZERO_ROOT
    {
      if branch[i] != ZERO_ROOT {
        assert branch[..extra][i] != ZERO_ROOT;
        return false;
      }
    }
    assert AllZero(branch[..extra]);
    valid := IsValidMerkleBranch(hash, leaf, branch[extra..], depth, SubtreeIndex(gindex), root);
  }

  /** Binding: equal roots, equal length and equal position force the same leaf
      and the same siblings, unless the two evaluations contain a collision. */
  lemma {:induction false} FoldBinds(
    hash: HashPair, leaf1: B256, branch1: seq<B256>, leaf2: B256, branch2: seq<B256>, index: nat,
    inputs: set<(B256, B256)>)
    requires |branch1| == |branch2|
    requires HashInputs(hash, leaf1, branch1, index) + HashInputs(hash, leaf2, branch2, index) <= inputs
    requires CollisionFreeOn(hash, inputs)
    requires Fold(hash, leaf1, branch1, index) == Fold(hash, leaf2, branch2, index)
    ensures leaf1 == leaf2 && branch1 == branch2
    decreases |branch1|
  {
    if branch1 != [] {
      var node1 := Step(hash, leaf1, branch1[0], index);
      var node2 := Step(hash, leaf2, branch2[0], index);
      FoldBinds(hash, node1, branch1[1..], node2, branch2[1..], index / 2, inputs);
      assert StepInput(leaf1, branch1[0], index) in inputs && StepInput(leaf2, branch2[0], index) in inputs;
      assert branch1 == [branch1[0]] + branch1[1..] && branch2 == [branch2[0]] + branch2[1..];
    }
  }

  /** Two proofs accepted for one generalized index and one root carry the same
      leaf and the same significant siblings, whatever zero padding each has. */
  lemma NormalizedBinds(
    hash: HashPair, leaf1: B256, branch1: seq<B256>, leaf2: B256, branch2: seq<B256>, gindex: nat, root: B256,
    inputs: set<(B256, B256)>)
    requires gindex > 0
    requires ValidNormalized(hash, leaf1, branch1, gindex, root)
    requires ValidNormalized(hash, leaf2, branch2, gindex, root)
    requires NormalizedInputs(hash, leaf1, branch1, gindex) + NormalizedInputs(hash, leaf2, branch2, gindex) <= inputs
    requires CollisionFreeOn(hash, inputs)
    ensures leaf1 == leaf2
    ensures Significant(branch1, gindex) == Significant(branch2, gindex)
  {
    FoldBinds(hash, leaf1, Significant(branch1, gindex), leaf2, Significant(branch2, gindex),
              SubtreeIndex(gindex), inputs);
  }

  /** The part of a branch that is hashed, after zero padding is dropped. */
  function Significant(branch: seq<B256>, gindex: nat): seq<B256>
    requires gindex > 0
  {
    branch[SaturatingSub(|branch|, FloorLog2(gindex))..]
  }

  function NormalizedInputs(hash: HashPair, leaf: B256, branch: seq<B256>, gindex: nat): set<(B256, B256)>
    requires gindex > 0
  {
    HashInputs(hash, leaf, Significant(branch, gindex), SubtreeIndex(gindex))
  }

  function Zeros(k: nat): (zeros: seq<B256>)
    ensures |zeros| == k && AllZero(zeros)
  {
    if k == 0 then [] else [ZERO_ROOT] + Zeros(k - 1)
  }

  /** Zero-prefix padding is neutral for every leaf and root exactly when the
      branch already has full depth, or stays too short even when padded. A short
      branch that padding brings to full depth becomes acceptable. */
  lemma ZeroPaddingNeutral(hash: HashPair, branch: seq<B256>, k: nat, gindex: nat)
    requires gindex > 0
    ensures (forall leaf, root ::
               ValidNormalized(hash, leaf, Zeros(k) + branch, gindex, root)
               == ValidNormalized(hash, leaf, branch, gindex, root))
            <==> k == 0 || |branch| >= FloorLog2(gindex) || k + |branch| < FloorLog2(gindex)
  {
    hide Fold;
    hide FloorLog2;
    var depth := FloorLog2(gindex);
    var padded := Zeros(k) + branch;
    if |branch| >= depth {
      var extra := |branch| - depth;
      assert padded[k + extra..] == branch[extra..];
      assert AllZero(padded[..k + extra]) == AllZero(branch[..extra]) by {
        assert padded[..k + extra] == Zeros(k) + branch[..extra];
        assert AllZero(padded[..k + extra]) ==>
                 forall i :: 0 <= i < extra ==> branch[..extra][i] == padded[..k + extra][k + i];
      }
    } else if k == 0 {
      assert padded == branch;
    } else if k + |branch| >= depth {
      var root := Fold(hash, ZERO_ROOT, Significant(padded, gindex), SubtreeIndex(gindex));
      assert ValidNormalized(hash, ZERO_ROOT, padded, gindex, root);
      assert !ValidNormalized(hash, ZERO_ROOT, branch, gindex, root);
    }
  }

  // An independent reading of what a branch proves: the tree it is cut from.

  datatype Tree = Leaf(value: B256) | Node(left: Tree, right: Tree)

  function Root(hash: HashPair, tree: Tree): B256 {
    match tree
    case Leaf(value) => value
    case Node(left, right) => hash(Root(hash, left), Root(hash, right))
  }

  /** The lowest `n` bits of a position. */
  function LowBits(index: nat, n: nat): nat {
    if n == 0 then 0 else index % 2 + 2 * LowBits(index / 2, n - 1)
  }

  /** What is left of a position above its lowest `n` bits. */
  function HighBits(index: nat, n: nat): nat {
    if n == 0 then index else HighBits(index / 2, n - 1)
  }

  /** The tree has a node `depth` levels below its root on the way to `index`. */
  predicate HasNode(tree: Tree, depth: nat, index: nat) {
    depth == 0 || (tree.Node? && HasNode(Toward(tree, depth, index), depth - 1, LowBits(index, depth - 1)))
  }

  function Toward(tree: Tree, depth: nat, index: nat): Tree
    requires depth > 0 && tree.Node?
  {
    if HighBits(index, depth - 1) % 2 == 0 then tree.left else tree.right
  }

  function Away(tree: Tree, depth: nat, index: nat): Tree
    requires depth > 0 && tree.Node?
  {
    if HighBits(index, depth - 1) % 2 == 0 then tree.right else tree.left
  }

  function NodeAt(tree: Tree, depth: nat, index: nat): Tree
    requires HasNode(tree, depth, index)
  {
    if depth == 0 then tree else NodeAt(Toward(tree, depth, index), depth - 1, LowBits(index, depth - 1))
  }

  /** The siblings from the node up to the root, lowest first. */
  function BranchOf(hash: HashPair, tree: Tree, depth: nat, index: nat): (branch: seq<B256>)
    requires HasNode(tree, depth, index)
    ensures |branch| == depth
  {
    if depth == 0 then []
    else BranchOf(hash, Toward(tree, depth, index), depth - 1, LowBits(index, depth - 1))
         + [Root(hash, Away(tree, depth, index))]
  }

  lemma {:induction false} FoldSnoc(hash: HashPair, leaf: B256, branch: seq<B256>, top: B256, index: nat)
    ensures Fold(hash, leaf, branch + [top], index)
            == Step(hash, Fold(hash, leaf, branch, index), top, HighBits(index, |branch|))
    decreases |branch|
  {
    if branch == [] {
      assert (branch + [top])[1..] == [];
    } else {
      assert (branch + [top])[1..] == branch[1..] + [top];
      FoldSnoc(hash, Step(hash, leaf, branch[0], index), branch[1..], top, index / 2);
    }
  }

  /** Only the low `|branch|` bits of the position matter. */
  lemma {:induction false} FoldLowBits(hash: HashPair, leaf: B256, branch: seq<B256>, index: nat)
    ensures Fold(hash, leaf, branch, index) == Fold(hash, leaf, branch, LowBits(index, |branch|))
    decreases |branch|
  {
    if branch != [] {
      FoldLowBits(hash, Step(hash, leaf, branch[0], index), branch[1..], index / 2);
    }
  }

  /** Completeness: the branch cut from a tree is accepted for the node it was cut at. */
  lemma {:induction false} HonestBranchVerifies(hash: HashPair, tree: Tree, depth: nat, index: nat)
    requires HasNode(tree, depth, index)
    ensures Fold(hash, Root(hash, NodeAt(tree, depth, index)), BranchOf(hash, tree, depth, index), index)
            == Root(hash, tree)
    decreases depth
  {
    if depth > 0 {
      var below := LowBits(index, depth - 1);
      var subtree := Toward(tree, depth, index);
      var branch := BranchOf(hash, subtree, depth - 1, below);
      var leaf := Root(hash, NodeAt(tree, depth, index));
      HonestBranchVerifies(hash, subtree, depth - 1, below);
      FoldLowBits(hash, leaf, branch, index);
      FoldSnoc(hash, leaf, branch, Root(hash, Away(tree, depth, index)), index);
    }
  }

  /** Soundness: over a known tree, an accepted leaf is the root of the subtree at that position. */
  lemma AcceptedLeafIsNode(
    hash: HashPair, tree: Tree, leaf: B256, branch: seq<B256>, depth: nat, index: nat, inputs: set<(B256, B256)>)
    requires HasNode(tree, depth, index) && |branch| == depth
    requires Fold(hash, leaf, branch, index) == Root(hash, tree)
    requires CollisionFreeOn(hash, inputs)
    requires HashInputs(hash, leaf, branch, index) <= inputs
    requires HashInputs(hash, Root(hash, NodeAt(tree, depth, index)), BranchOf(hash, tree, depth, index), index)
             <= inputs
    ensures leaf == Root(hash, NodeAt(tree, depth, index))
  {
    HonestBranchVerifies(hash, tree, depth, index);
    FoldBinds(hash, leaf, branch, Root(hash, NodeAt(tree, depth, index)), BranchOf(hash, tree, depth, index), index,
      inputs);
  }
}
