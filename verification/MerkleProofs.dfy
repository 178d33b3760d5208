/**
 Sorted-pair Merkle trees over 32-byte leaves: the proof builder, and what a
 verifier that only folds sorted pairs can conclude from a proof.

 The hash is an arbitrary function. Nothing is assumed about it except, for the
 soundness theorem, that it has no collision among the finitely many blocks
 that building the tree and folding the proof actually hash.
 */
module MerkleProofs {
  import opened Outcomes

  type Bytes = seq<Byte>
  type Digest = d: Bytes | |d| == 32 witness seq(32, i => 0)
  type Block = d: Bytes | |d| == 64 witness seq(64, i => 0)
  type Hash = Block -> Digest

  datatype MerkleProof = MerkleProof(root: Digest, proof: seq<Digest>)
  datatype ProofError = EmptyTree | IndexOutOfBounds | BadLeafLength

  // ---------------------------------------------------------------------
  // Sorted pairs
  // ---------------------------------------------------------------------

  /** Lexicographic comparison of the bytes from position `i` on. */
  function Compare(left: Digest, right: Digest, i: nat): int
    requires i <= 32
    decreases 32 - i
  {
    if i == 32 then 0
    else if left[i] < right[i] then -1
    else if left[i] > right[i] then 1
    else Compare(left, right, i + 1)
  }

  /** The first byte at which the digests differ, 32 if there is none. */
  ghost predicate DifferFirstAt(left: Digest, right: Digest, k: nat) {
    && k <= 32
    && (forall j :: 0 <= j < k ==> left[j] == right[j])
    && (k < 32 ==> left[k] != right[k])
  }

  /** The comparison has the sign of the first difference. */
  lemma {:induction false} CompareExactly(left: Digest, right: Digest, i: nat) returns (k: nat)
    requires i <= 32 && forall j :: 0 <= j < i ==> left[j] == right[j]
    ensures DifferFirstAt(left, right, k)
    ensures Compare(left, right, i) == if k == 32 then 0 else if left[k] < right[k] then -1 else 1
    decreases 32 - i
  {
    if i < 32 && left[i] == right[i] {
      k := CompareExactly(left, right, i + 1);
    } else {
      k := i;
    }
  }

  method CompareBytes(left: Digest, right: Digest) returns (r: int)
    ensures r == Compare(left, right, 0)
    ensures exists k: nat :: DifferFirstAt(left, right, k)
                             && r == if k == 32 then 0 else if left[k] < right[k] then -1 else 1
  {
    ghost var k := CompareExactly(left, right, 0);
    for i := 0 to |left|
      invariant Compare(left, right, i) == Compare(left, right, 0)
    {
      if left[i] < right[i] {
        return -1;
      }
      if left[i] > right[i] {
        return 1;
      }
    }
    return 0;
  }

  function SortedPair(left: Digest, right: Digest): Block {
    if Compare(left, right, 0) <= 0 then left + right else right + left
  }

  /** `block` is two digests one after the other, the lexicographically smaller one first. */
  ghost predicate IsSorted(block: Block) {
    exists k: nat :: DifferFirstAt(block[..32], block[32..], k) && (k < 32 ==> block[k] < block[32 + k])
  }

  ghost predicate Joins(block: Block, first: Digest, second: Digest) {
    block[..32] == first && block[32..] == second
  }

  /** A sorted pair is the two digests in ascending order. */
  lemma SortedPairIsSorted(left: Digest, right: Digest)
    ensures Joins(SortedPair(left, right), left, right) || Joins(SortedPair(left, right), right, left)
    ensures IsSorted(SortedPair(left, right))
  {
    var k := CompareExactly(left, right, 0);
    var block := SortedPair(left, right);
    assert DifferFirstAt(right, left, k);
    if Compare(left, right, 0) <= 0 {
      assert Joins(block, left, right);
    } else {
      assert Joins(block, right, left);
    }
  }

  function HashPair(h: Hash, left: Digest, right: Digest): Digest {
    h(SortedPair(left, right))
  }

  lemma {:induction false} CompareOrder(left: Digest, right: Digest, i: nat)
    requires i <= 32
    ensures Compare(left, right, i) == -Compare(right, left, i)
    ensures Compare(left, right, i) == 0 <==> left[i..] == right[i..]
    decreases 32 - i
  {
    if i < 32 {
      CompareOrder(left, right, i + 1);
      assert left[i..] == [left[i]] + left[i + 1..] && right[i..] == [right[i]] + right[i + 1..];
    }
  }

  /** The pair of siblings can be given in either order. */
  lemma SortedPairCommutes(left: Digest, right: Digest)
    ensures SortedPair(left, right) == SortedPair(right, left)
  {
    CompareOrder(left, right, 0);
    if Compare(left, right, 0) == 0 {
      assert left == left[0..] == right[0..] == right;
    }
  }

  /** A sorted block determines the two digests it was made of, up to order. */
  lemma SortedPairDetermines(a: Digest, b: Digest, c: Digest, d: Digest)
    requires SortedPair(a, b) == SortedPair(c, d)
    ensures (a == c && b == d) || (a == d && b == c)
  {
    var x, y := SortedPair(a, b), SortedPair(c, d);
    assert x[..32] == y[..32] && x[32..] == y[32..];
  }

  // ---------------------------------------------------------------------
  // The tree
  // ---------------------------------------------------------------------

  /** An odd level is completed with a copy of its last node. */
  function Padded(level: seq<Digest>): (p: seq<Digest>)
    requires |level| > 0
    ensures |p| % 2 == 0 && |level| <= |p| <= |level| + 1
  {
    if |level| % 2 == 1 then level + [level[|level| - 1]] else level
  }

  /** The block hashed to make parent `i` of a level; a node without sibling is paired with itself. */
  function ParentBlock(level: seq<Digest>, i: nat): Block
    requires i < (|level| + 1) / 2
  {
    SortedPair(level[2 * i], if 2 * i + 1 < |level| then level[2 * i + 1] else level[2 * i])
  }

  /** The first `n` parents of a level. */
  function Parents(h: Hash, level: seq<Digest>, n: nat): (next: seq<Digest>)
    requires n <= (|level| + 1) / 2
    ensures |next| == n
    ensures forall i :: 0 <= i < n ==> next[i] == h(ParentBlock(level, i))
  {
    if n == 0 then [] else Parents(h, level, n - 1) + [h(ParentBlock(level, n - 1))]
  }

  function NextLevel(h: Hash, level: seq<Digest>): seq<Digest>
    requires |level| > 0
  {
    Parents(h, level, (|level| + 1) / 2)
  }

  function Root(h: Hash, level: seq<Digest>): Digest
    requires |level| > 0
    decreases |level|
  {
    if |level| == 1 then level[0] else Root(h, NextLevel(h, level))
  }

  /** Number of levels above one of `n` nodes. */
  function Depth(n: nat): nat {
    if n <= 1 then 0 else 1 + Depth((n + 1) / 2)
  }

  function SiblingIndex(index: nat): nat {
    if index % 2 == 0 then index + 1 else index - 1
  }

  /** The siblings on the path from node `index` of `level` to the root. */
  function ProofOf(h: Hash, level: seq<Digest>, index: nat): seq<Digest>
    requires index < |level|
    decreases |level|
  {
    if |level| == 1 then []
    else [Padded(level)[SiblingIndex(index)]] + ProofOf(h, NextLevel(h, level), index / 2)
  }

  /** What a verifier does: fold the proof over a value, one sorted pair a level. */
  function Fold(h: Hash, value: Digest, proof: seq<Digest>): Digest
    decreases |proof|
  {
    if proof == [] then value else Fold(h, HashPair(h, value, proof[0]), proof[1..])
  }

  function Pow2(n: nat): nat {
    if n == 0 then 1 else 2 * Pow2(n - 1)
  }

  /** `Depth` is the ceiling of the base-2 logarithm. */
  lemma {:induction false} DepthIsCeilingOfLog2(n: nat)
    requires n >= 1
    ensures n <= Pow2(Depth(n))
    ensures n > 1 ==> Pow2(Depth(n) - 1) < n
  {
    if n > 1 {
      DepthIsCeilingOfLog2((n + 1) / 2);
    }
  }

  // ---------------------------------------------------------------------
  // Completeness and soundness
  // ---------------------------------------------------------------------

  /** A node and its sibling make the block of their parent, in either order. */
  lemma SiblingsMakeParentBlock(level: seq<Digest>, index: nat)
    requires index < |level| && |level| > 1
    ensures SiblingIndex(index) < |Padded(level)| && index / 2 < (|level| + 1) / 2
    ensures SortedPair(level[index], Padded(level)[SiblingIndex(index)]) == ParentBlock(level, index / 2)
  {
    var p, i := Padded(level), index / 2;
    assert level[index] == p[index];
    if index == 2 * i {
      assert SiblingIndex(index) == 2 * i + 1;
    } else {
      assert index == 2 * i + 1 && SiblingIndex(index) == 2 * i;
      SortedPairCommutes(p[index], p[2 * i]);
    }
  }

  /** A parent block is made of two nodes of the level. */
  lemma ParentBlockComesFromLevel(level: seq<Digest>, i: nat, value: Digest, sibling: Digest)
    requires |level| > 0 && i < (|level| + 1) / 2
    requires ParentBlock(level, i) == SortedPair(value, sibling)
    ensures value in level
  {
    var left, right := level[2 * i], if 2 * i + 1 < |level| then level[2 * i + 1] else level[2 * i];
    SortedPairDetermines(left, right, value, sibling);
    assert left in level && right in level;
  }

  /** Every node of a level folds to the root through its proof, one sibling a level. */
  lemma {:induction false} Completeness(h: Hash, level: seq<Digest>, index: nat)
    requires index < |level|
    ensures |ProofOf(h, level, index)| == Depth(|level|)
    ensures Fold(h, level[index], ProofOf(h, level, index)) == Root(h, level)
    decreases |level|
  {
    if |level| > 1 {
      SiblingsMakeParentBlock(level, index);
      Completeness(h, NextLevel(h, level), index / 2);
    }
  }

  /** `block` has no second preimage under `h` among the blocks hashed for one level. */
  ghost predicate NoSecondPreimage(h: Hash, level: seq<Digest>, block: Block)
    requires |level| > 0
  {
    forall i :: 0 <= i < (|level| + 1) / 2 && h(ParentBlock(level, i)) == h(block) ==> ParentBlock(level, i) == block
  }

  /** No block hashed while folding collides with a different block the tree hashed at that height. */
  ghost predicate FoldCollisionFree(h: Hash, level: seq<Digest>, value: Digest, proof: seq<Digest>)
    requires |level| > 0
    decreases |proof|
  {
    proof != [] ==>
      && NoSecondPreimage(h, level, SortedPair(value, proof[0]))
      && FoldCollisionFree(h, NextLevel(h, level), HashPair(h, value, proof[0]), proof[1..])
  }

  /** No two different blocks hashed for the same level of the tree collide. */
  ghost predicate TreeCollisionFree(h: Hash, level: seq<Digest>)
    requires |level| > 0
    decreases |level|
  {
    |level| > 1 ==>
      && (forall i :: 0 <= i < (|level| + 1) / 2 ==> NoSecondPreimage(h, level, ParentBlock(level, i)))
      && TreeCollisionFree(h, NextLevel(h, level))
  }

  /**
   A value that folds to the root through a proof of exactly the tree's depth is
   one of the leaves, unless folding it hits a collision with the tree.
   */
  lemma {:induction false} Soundness(h: Hash, leaves: seq<Digest>, value: Digest, proof: seq<Digest>)
    requires |leaves| > 0 && |proof| == Depth(|leaves|)
    requires Fold(h, value, proof) == Root(h, leaves)
    requires FoldCollisionFree(h, leaves, value, proof)
    ensures value in leaves
    decreases |leaves|
  {
    if |leaves| > 1 {
      var next, parent := NextLevel(h, leaves), HashPair(h, value, proof[0]);
      Soundness(h, next, parent, proof[1..]);
      var i :| 0 <= i < |next| && next[i] == parent;
      assert h(ParentBlock(leaves, i)) == h(SortedPair(value, proof[0]));
      ParentBlockComesFromLevel(leaves, i, value, proof[0]);
    }
  }

  /** The proof of a node of a collision-free tree meets no collision. */
  lemma {:induction false} HonestProofIsCollisionFree(h: Hash, level: seq<Digest>, index: nat)
    requires index < |level| && TreeCollisionFree(h, level)
    ensures FoldCollisionFree(h, level, level[index], ProofOf(h, level, index))
    decreases |level|
  {
    if |level| > 1 {
      SiblingsMakeParentBlock(level, index);
      HonestProofIsCollisionFree(h, NextLevel(h, level), index / 2);
      assert ProofOf(h, level, index)[1..] == ProofOf(h, NextLevel(h, level), index / 2);
    }
  }

  /** `level` is the leaves of the tree or one of the levels built above them. */
  ghost predicate LevelOf(h: Hash, leaves: seq<Digest>, level: seq<Digest>)
    requires |leaves| > 0
    decreases |leaves|
  {
    level == leaves || (|leaves| > 1 && LevelOf(h, NextLevel(h, leaves), level))
  }

  /** The upper levels of a tree are themselves a tree with the same root. */
  lemma {:induction false} LevelIsATree(h: Hash, leaves: seq<Digest>, level: seq<Digest>)
    requires |leaves| > 0 && LevelOf(h, leaves, level)
    ensures |level| > 0 && Root(h, level) == Root(h, leaves)
    decreases |leaves|
  {
    if level != leaves {
      LevelIsATree(h, NextLevel(h, leaves), level);
    }
  }

  lemma {:induction false} LevelIsCollisionFree(h: Hash, leaves: seq<Digest>, level: seq<Digest>)
    requires |leaves| > 0 && LevelOf(h, leaves, level) && TreeCollisionFree(h, leaves)
    ensures |level| > 0 && TreeCollisionFree(h, level)
    decreases |leaves|
  {
    if level != leaves {
      LevelIsCollisionFree(h, NextLevel(h, leaves), level);
    }
  }

  /** `proof` is as long as `level` is deep and carries `value` to the root of the tree, meeting no collision. */
  ghost predicate Accepted(h: Hash, leaves: seq<Digest>, level: seq<Digest>, value: Digest, proof: seq<Digest>)
    requires |leaves| > 0 && |level| > 0
  {
    && |proof| == Depth(|level|)
    && Fold(h, value, proof) == Root(h, leaves)
    && FoldCollisionFree(h, level, value, proof)
  }

  /**
   Exactly what a proof length buys: an accepted proof as long as a level is deep
   exists for the nodes of that level and for nothing else. At the full depth
   these are the leaves; an inner node, the root included, has a shorter proof,
   so a verifier must fix the length.
   */
  lemma ProofLengthFixesTheLevel(h: Hash, leaves: seq<Digest>, level: seq<Digest>, value: Digest)
    requires |leaves| > 0 && |level| > 0 && LevelOf(h, leaves, level)
    requires TreeCollisionFree(h, leaves)
    ensures value in level <==> exists proof: seq<Digest> :: Accepted(h, leaves, level, value, proof)
  {
    LevelIsATree(h, leaves, level);
    LevelIsCollisionFree(h, leaves, level);
    if value in level {
      var i :| 0 <= i < |level| && level[i] == value;
      Completeness(h, level, i);
      HonestProofIsCollisionFree(h, level, i);
      assert Accepted(h, leaves, level, value, ProofOf(h, level, i));
    }
    forall proof: seq<Digest> | Accepted(h, leaves, level, value, proof)
      ensures value in level
    {
      Soundness(h, level, value, proof);
    }
  }

  // ---------------------------------------------------------------------
  // The tree, level by level
  // ---------------------------------------------------------------------

  /** Node `i` of the level above hashes nodes `2i` and `2i + 1` in ascending order; a last node alone, with itself. */
  ghost predicate IsParent(h: Hash, level: seq<Digest>, i: nat, parent: Digest)
    requires 2 * i < |level|
  {
    var left, right := level[2 * i], if 2 * i + 1 < |level| then level[2 * i + 1] else level[2 * i];
    exists block: Block ::
      IsSorted(block) && (Joins(block, left, right) || Joins(block, right, left)) && parent == h(block)
  }

  ghost predicate IsLevelAbove(h: Hash, level: seq<Digest>, next: seq<Digest>) {
    && 2 * |next| - 1 <= |level| <= 2 * |next|
    && forall i :: 0 <= i < |next| ==> IsParent(h, level, i, next[i])
  }

  /** `levels` is a tree over `leaves` up to a single root. */
  ghost predicate IsTree(h: Hash, leaves: seq<Digest>, levels: seq<seq<Digest>>) {
    && |levels| > 0 && levels[0] == leaves && |levels[|levels| - 1]| == 1
    && (forall k :: 0 <= k < |levels| - 1 ==> |levels[k]| > 1 && IsLevelAbove(h, levels[k], levels[k + 1]))
  }

  /** The node beside node `i` of a level, a last node alone being its own. */
  function Beside(level: seq<Digest>, i: nat): Digest
    requires i < |level|
  {
    if i % 2 == 1 then level[i - 1] else if i + 1 < |level| then level[i + 1] else level[i]
  }

  /** `proof` is the node beside the path from leaf `index`, one from each level below the root. */
  ghost predicate IsPath(levels: seq<seq<Digest>>, index: nat, proof: seq<Digest>)
    decreases |levels|
  {
    if |levels| <= 1 then proof == []
    else proof != [] && index < |levels[0]| && proof[0] == Beside(levels[0], index)
         && IsPath(levels[1..], index / 2, proof[1..])
  }

  lemma NextLevelIsAbove(h: Hash, level: seq<Digest>)
    requires |level| > 0
    ensures IsLevelAbove(h, level, NextLevel(h, level))
  {
    var next := NextLevel(h, level);
    forall i | 0 <= i < |next|
      ensures IsParent(h, level, i, next[i])
    {
      var left, right := level[2 * i], if 2 * i + 1 < |level| then level[2 * i + 1] else level[2 * i];
      SortedPairIsSorted(left, right);
      assert next[i] == h(SortedPair(left, right));
    }
  }

  lemma SingleIsTree(h: Hash, leaves: seq<Digest>)
    requires |leaves| == 1
    ensures IsTree(h, leaves, [leaves])
  {
  }

  lemma TreeGrows(h: Hash, leaves: seq<Digest>, next: seq<Digest>, above: seq<seq<Digest>>)
    requires IsTree(h, next, above) && |leaves| > 1 && IsLevelAbove(h, leaves, next)
    ensures IsTree(h, leaves, [leaves] + above)
  {
    hide IsLevelAbove;
    var levels := [leaves] + above;
    forall k | 0 <= k < |levels| - 1
      ensures |levels[k]| > 1 && IsLevelAbove(h, levels[k], levels[k + 1])
    {
      assert k > 0 ==> levels[k] == above[k - 1] && levels[k + 1] == above[k];
    }
  }

  lemma SiblingIsBeside(level: seq<Digest>, i: nat)
    requires i < |level|
    ensures SiblingIndex(i) < |Padded(level)| && Padded(level)[SiblingIndex(i)] == Beside(level, i)
  {
  }

  /** Root and proof are those of a tree over the leaves. */
  lemma {:induction false} ProofIsOfTheTree(h: Hash, leaves: seq<Digest>, index: nat) returns (levels: seq<seq<Digest>>)
    requires index < |leaves|
    ensures |levels| > 0 && IsTree(h, leaves, levels) && levels[|levels| - 1] == [Root(h, leaves)]
    ensures IsPath(levels, index, ProofOf(h, leaves, index))
    decreases |leaves|
  {
    hide IsTree, Padded, SiblingIndex, Beside, IsLevelAbove;
    if |leaves| == 1 {
      SingleIsTree(h, leaves);
      levels := [leaves];
      assert leaves == [leaves[0]];
    } else {
      var next := NextLevel(h, leaves);
      var above := ProofIsOfTheTree(h, next, index / 2);
      NextLevelIsAbove(h, leaves);
      levels := [leaves] + above;
      TreeGrows(h, leaves, next, above);
      SiblingIsBeside(leaves, index);
      assert levels[1..] == above;
    }
  }

  ghost predicate IsProofOfTree(h: Hash, leaves: seq<Digest>, index: nat, r: MerkleProof) {
    exists levels ::
      IsTree(h, leaves, levels) && levels[|levels| - 1] == [r.root] && IsPath(levels, index, r.proof)
  }

  // ---------------------------------------------------------------------
  // The builder
  // ---------------------------------------------------------------------

  /** Checks and copies the leaves, refusing one that is not 32 bytes long. */
  method CopyLeaves(leaves: seq<Bytes>) returns (r: Result<seq<Digest>, ProofError>)
    ensures (forall leaf <- leaves :: |leaf| == 32) ==> r.Ok? && r.value == leaves
    ensures (exists leaf <- leaves :: |leaf| != 32) ==> r == Err(BadLeafLength)
  {
    var level: seq<Digest> := [];
    for i := 0 to |leaves|
      invariant forall k :: 0 <= k < i ==> |leaves[k]| == 32
      invariant level == leaves[..i]
    {
      if |leaves[i]| != 32 {
        assert leaves[i] in leaves;
        return Err(BadLeafLength);
      }
      level := level + [leaves[i]];
    }
    return Ok(level);
  }

  /** One level up, pairing the nodes of an already padded level. */
  method HashLevel(h: Hash, padded: seq<Digest>, ghost level: seq<Digest>) returns (nextLevel: seq<Digest>)
    requires |level| > 0 && padded == Padded(level)
    ensures nextLevel == NextLevel(h, level)
  {
    nextLevel := [];
    var i := 0;
    while i < |padded|
      invariant i == 2 * |nextLevel| && |nextLevel| <= (|level| + 1) / 2
      invariant nextLevel == Parents(h, level, |nextLevel|)
    {
      nextLevel := nextLevel + [HashPair(h, padded[i], padded[i + 1])];
      i := i + 2;
    }
  }

  /** One round of the builder's loop: the sibling is recorded and the level halves. */
  lemma ClimbOneLevel(h: Hash, level: seq<Digest>, index: nat, proof: seq<Digest>)
    requires index < |level| && |level| > 1
    ensures SiblingIndex(index) < |Padded(level)| && index / 2 < |NextLevel(h, level)| < |level|
    ensures Root(h, level) == Root(h, NextLevel(h, level))
    ensures proof + ProofOf(h, level, index)
         == (proof + [Padded(level)[SiblingIndex(index)]]) + ProofOf(h, NextLevel(h, level), index / 2)
  {
  }

  /** Climbs from the leaves to the root, collecting the sibling at every level. */
  method BuildProof(h: Hash, leaves: seq<Digest>, target: nat) returns (r: MerkleProof)
    requires target < |leaves|
    ensures r == MerkleProof(Root(h, leaves), ProofOf(h, leaves, target))
    ensures |r.proof| == Depth(|leaves|) && Fold(h, leaves[target], r.proof) == r.root
    ensures IsProofOfTree(h, leaves, target, r)
  {
    var level := leaves;
    var proof: seq<Digest> := [];
    var index := target;

    while |level| > 1
      invariant 0 <= index < |level|
      invariant Root(h, level) == Root(h, leaves)
      invariant proof + ProofOf(h, level, index) == ProofOf(h, leaves, target)
      decreases |level|
    {
      ghost var before := level;
      ClimbOneLevel(h, level, index, proof);
      if |level| % 2 == 1 {
        level := level + [level[|level| - 1]];
      }

      var siblingIndex := if index % 2 == 0 then index + 1 else index - 1;
      proof := proof + [level[siblingIndex]];

      level := HashLevel(h, level, before);
      index := index / 2;
    }

    Completeness(h, leaves, target);
    ghost var levels := ProofIsOfTheTree(h, leaves, target);
    assert proof + [] == proof;
    return MerkleProof(level[0], proof);
  }

  /**
   The builder refuses an empty tree, an index outside it and a leaf of the wrong
   length, in that order; otherwise it returns the root of the tree and the
   siblings on the path from the target leaf.
   */
  method GenerateCredentialMerkleProof(h: Hash, leaves: seq<Bytes>, targetLeafIndex: int)
    returns (r: Result<MerkleProof, ProofError>)
    ensures leaves == [] ==> r == Err(EmptyTree)
    ensures leaves != [] && !(0 <= targetLeafIndex < |leaves|) ==> r == Err(IndexOutOfBounds)
    ensures 0 <= targetLeafIndex < |leaves| && (exists leaf <- leaves :: |leaf| != 32) ==> r == Err(BadLeafLength)
    ensures 0 <= targetLeafIndex < |leaves| && (forall leaf <- leaves :: |leaf| == 32) ==>
              var digests: seq<Digest> := leaves;
              && r.Ok?
              && r.value.root == Root(h, digests)
              && r.value.proof == ProofOf(h, digests, targetLeafIndex)
              && |r.value.proof| == Depth(|leaves|)
              && Fold(h, leaves[targetLeafIndex], r.value.proof) == r.value.root
              && IsProofOfTree(h, digests, targetLeafIndex, r.value)
  {
    if |leaves| == 0 {
      return Err(EmptyTree);
    }
    if targetLeafIndex < 0 || targetLeafIndex >= |leaves| {
      return Err(IndexOutOfBounds);
    }
    var copied := CopyLeaves(leaves);
    if copied.Err? {
      return Err(copied.error);
    }

    var built := BuildProof(h, copied.value, targetLeafIndex);
    return Ok(built);
  }
}
