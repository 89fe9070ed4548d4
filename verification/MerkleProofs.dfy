/** Inclusion and consistency proofs: the bit-driven verifiers and the proofs of RFC 6962 they accept. */
module MerkleProofs {
  import opened Bits
  import opened Bytes
  import opened MerkleTree
  import opened Wrappers

  const HALF_RANGE: nat := 0x8000_0000_0000_0000

  // ----- The proofs of RFC 6962 -----

  function Snoc<D>(proof: seq<D>, last: D): seq<D> {
    proof + [last]
  }

  /** The Merkle audit path for leaf `i` (RFC 6962, section 2.1.1). */
  function Path<D>(h: (D, D) -> D, i: nat, leaves: seq<D>): seq<D>
    requires i < |leaves|
    decreases |leaves|
  {
    if |leaves| == 1 then []
    else
      var k := Split(|leaves|);
      if i < k then Snoc(Path(h, i, Left(leaves)), Mth(h, Right(leaves)))
      else Snoc(Path(h, i - k, Right(leaves)), Mth(h, Left(leaves)))
  }

  /** SUBPROOF of RFC 6962, section 2.1.2; `whole` says that the old root is already known. */
  function SubProof<D>(h: (D, D) -> D, m: nat, leaves: seq<D>, whole: bool): seq<D>
    requires 0 < m <= |leaves|
    decreases |leaves|
  {
    if m == |leaves| then (if whole then [] else [Mth(h, leaves)])
    else
      var k := Split(|leaves|);
      if m <= k then Snoc(SubProof(h, m, Left(leaves), whole), Mth(h, Right(leaves)))
      else Snoc(SubProof(h, m - k, Right(leaves), false), Mth(h, Left(leaves)))
  }

  /** PROOF(m, leaves) of RFC 6962, section 2.1.2. */
  function Proof<D>(h: (D, D) -> D, m: nat, leaves: seq<D>): seq<D>
    requires 0 < m <= |leaves|
  {
    SubProof(h, m, leaves, true)
  }

  // ----- The verifiers -----

  /** How many low levels pair the leaf with some sibling on either side. */
  function InnerProofSize(index: nat, size: nat): nat
    requires size > 0
  {
    var xor := Xor(index, size - 1);
    if xor == 0 then 0 else BitLength(xor)
  }

  function DecompInclusionProof(index: nat, size: nat): (nat, nat)
    requires size > 0
  {
    var inner := InnerProofSize(index, size);
    (inner, PopCount(Shr(index, inner)))
  }

  function ChainInner<D>(h: (D, D) -> D, seed: D, proof: seq<D>, index: nat): D {
    if proof == [] then seed
    else ChainInner(h, if index % 2 == 0 then h(seed, proof[0]) else h(proof[0], seed), proof[1..], index / 2)
  }

  function ChainInnerRight<D>(h: (D, D) -> D, seed: D, proof: seq<D>, index: nat): D {
    if proof == [] then seed
    else ChainInnerRight(h, if index % 2 == 1 then h(proof[0], seed) else seed, proof[1..], index / 2)
  }

  function ChainBorder<D>(h: (D, D) -> D, seed: D, proof: seq<D>): D {
    if proof == [] then seed else ChainBorder(h, h(proof[0], seed), proof[1..])
  }

  method ChainInnerMerkle<D>(h: (D, D) -> D, start: D, proof: seq<D>, index: nat) returns (seed: D)
    ensures seed == ChainInner(h, start, proof, index)
  {
    seed := start;
    for i := 0 to |proof|
      invariant ChainInner(h, seed, proof[i..], Shr(index, i)) == ChainInner(h, start, proof, index)
    {
      ShrNext(index, i);
      if Shr(index, i) % 2 == 0 {
        seed := h(seed, proof[i]);
      } else {
        seed := h(proof[i], seed);
      }
    }
  }

  method ChainInnerRightMerkle<D>(h: (D, D) -> D, start: D, proof: seq<D>, index: nat) returns (seed: D)
    ensures seed == ChainInnerRight(h, start, proof, index)
  {
    seed := start;
    for i := 0 to |proof|
      invariant ChainInnerRight(h, seed, proof[i..], Shr(index, i)) == ChainInnerRight(h, start, proof, index)
    {
      ShrNext(index, i);
      if Shr(index, i) % 2 == 1 {
        seed := h(proof[i], seed);
      }
    }
  }

  method ChainBorderRightMerkle<D>(h: (D, D) -> D, start: D, proof: seq<D>) returns (seed: D)
    ensures seed == ChainBorder(h, start, proof)
  {
    seed := start;
    for i := 0 to |proof|
      invariant ChainBorder(h, seed, proof[i..]) == ChainBorder(h, start, proof)
    {
      seed := h(proof[i], seed);
    }
  }

  /** The proof length the verifier asks for. */
  function ProofLength(index: nat, size: nat): nat
    requires size > 0
  {
    DecompInclusionProof(index, size).0 + DecompInclusionProof(index, size).1
  }

  /** Both chains over a whole proof, hashing every sibling. */
  function Fold<D>(h: (D, D) -> D, node: D, index: nat, size: nat, proof: seq<D>): D
    requires size > 0 && |proof| == ProofLength(index, size)
  {
    var inner := InnerProofSize(index, size);
    ChainBorder(h, ChainInner(h, node, proof[..inner], index), proof[inner..])
  }

  /** Both chains over a whole proof, hashing left siblings only. */
  function FoldLeft<D>(h: (D, D) -> D, node: D, index: nat, size: nat, proof: seq<D>): D
    requires size > 0 && |proof| == ProofLength(index, size)
  {
    var inner := InnerProofSize(index, size);
    ChainBorder(h, ChainInnerRight(h, node, proof[..inner], index), proof[inner..])
  }

  function InclusionRoot<D>(h: (D, D) -> D, index: nat, size: nat, leaf: D, proof: seq<D>): Option<D> {
    if size == 0 || index >= size || |proof| != ProofLength(index, size) then None
    else Some(Fold(h, leaf, index, size, proof))
  }

  /** The word shift by the inner length stays below the word width. */
  predicate ShiftSafe(index: nat, size: nat) {
    index < size ==> size <= HALF_RANGE || index >= HALF_RANGE
  }

  method RootFromInclusionProof<D>(h: (D, D) -> D, leafIndex: u64, treeSize: u64, leafHash: D, proof: seq<D>)
    returns (root: Option<D>)
    requires ShiftSafe(leafIndex, treeSize)
    ensures root == InclusionRoot(h, leafIndex, treeSize, leafHash, proof)
  {
    if treeSize == 0 || leafIndex >= treeSize {
      return None;
    }
    var (inner, border) := DecompInclusionProof(leafIndex, treeSize);
    if |proof| != inner + border {
      return None;
    }
    var node := ChainInnerMerkle(h, leafHash, proof[..inner], leafIndex);
    node := ChainBorderRightMerkle(h, node, proof[inner..]);
    return Some(node);
  }

  function ConsistencyRoot<D(==)>(h: (D, D) -> D, size1: nat, size2: nat, root1: D, proof: seq<D>): Option<D> {
    if size2 < size1 then None
    else if size1 == size2 then (if proof != [] then None else Some(root1))
    else if size1 == 0 || proof == [] then None
    else
      var (inner, border) := DecompInclusionProof(size1 - 1, size2);
      var shift := TrailingZeros(size1);
      if inner < shift then None
      else
        var (seed, start) := if size1 == Pow2(shift) then (root1, 0) else (proof[0], 1);
        var inner' := inner - shift;
        if |proof| != start + inner' + border then None
        else
          var suffix, mask := proof[start..], Shr(size1 - 1, shift);
          if ChainBorder(h, ChainInnerRight(h, seed, suffix[..inner'], mask), suffix[inner'..]) != root1 then None
          else Some(ChainBorder(h, ChainInner(h, seed, suffix[..inner'], mask), suffix[inner'..]))
  }

  method RootFromConsistencyProof<D(==)>(h: (D, D) -> D, size1: u64, size2: u64, root1: D, proof: seq<D>)
    returns (root: Option<D>)
    requires 0 < size1 ==> ShiftSafe(size1 - 1, size2)
    ensures root == ConsistencyRoot(h, size1, size2, root1, proof)
  {
    if size2 < size1 {
      return None;
    }
    if size1 == size2 {
      return if proof != [] then None else Some(root1);
    }
    if size1 == 0 || proof == [] {
      return None;
    }
    var (inner, border) := DecompInclusionProof(size1 - 1, size2);
    var shift := TrailingZeros(size1);
    if inner < shift {
      return None;
    }
    inner := inner - shift;
    var seed := proof[0];
    var start := 1;
    if size1 == Pow2(shift) {
      seed := root1;
      start := 0;
    }
    if |proof| != start + inner + border {
      return None;
    }
    var suffix := proof[start..];
    var mask := Shr(size1 - 1, shift);
    var hash1 := ChainInnerRightMerkle(h, seed, suffix[..inner], mask);
    hash1 := ChainBorderRightMerkle(h, hash1, suffix[inner..]);
    if hash1 != root1 {
      return None;
    }
    var hash2 := ChainInnerMerkle(h, seed, suffix[..inner], mask);
    hash2 := ChainBorderRightMerkle(h, hash2, suffix[inner..]);
    return Some(hash2);
  }

  /** Exactly the sizes of `ShiftSafe` keep the inner length, and so every shift, below 64. */
  lemma ShiftSafeExactly(index: u64, size: u64)
    requires index < size
    ensures ShiftSafe(index, size) <==> InnerProofSize(index, size) < 64
  {
    var last := size - 1;
    Pow2Of63();
    assert Pow2(64) == 2 * Pow2(63);
    BitLengthAtMost(index, 63);
    BitLengthAtMost(last, 63);
    BitLengthAtMost(last, 64);
    BitLengthMonotone(index, last);
    XorLength(index, last);
  }

  // ----- One level of the tree at a time -----

  /** A path from the level above, extended with the sibling on this level if there is one. */
  function WithSibling<D>(level: seq<D>, i: nat, rest: seq<D>): seq<D>
    requires i < |level|
  {
    if i % 2 == 1 then [level[i - 1]] + rest
    else if i + 1 < |level| then [level[i + 1]] + rest
    else rest
  }

  /** The two halves of a tree separate no siblings, and siblings come before the rest of the path. */
  lemma SplitIsEven(n: nat)
    requires n > 2
    ensures Split(n) % 2 == 0
  {
    assert Split(n) == 2 * Split((n + 1) / 2);
  }

  lemma {:induction false} WithSiblingInLeft<D>(level: seq<D>, i: nat, rest: seq<D>, last: D)
    requires |level| > 2 && i < Split(|level|)
    ensures i < |Left(level)|
    ensures Snoc(WithSibling(Left(level), i, rest), last) == WithSibling(level, i, Snoc(rest, last))
  {
    hide Split, IsPow2;
    SplitIsEven(|level|);
    if i % 2 == 0 {
      assert i + 1 < Split(|level|);
    }
  }

  lemma SnocBehind<D>(first: D, rest: seq<D>, last: D)
    ensures Snoc([first] + rest, last) == [first] + Snoc(rest, last)
  {
  }

  lemma SameParity(k: nat, i: nat, j: nat)
    requires k % 2 == 0 && i == k + j
    ensures i % 2 == j % 2
  {
  }

  lemma {:induction false} WithSiblingInRight<D>(level: seq<D>, i: nat, j: nat, rest: seq<D>, last: D)
    requires |level| > 2 && i < |level| && i == Split(|level|) + j
    ensures j < |Right(level)|
    ensures Snoc(WithSibling(Right(level), j, rest), last) == WithSibling(level, i, Snoc(rest, last))
  {
    hide Split, IsPow2, Snoc;
    SplitIsEven(|level|);
    SameParity(Split(|level|), i, j);
    if j % 2 == 1 {
      SnocBehind(level[i - 1], rest, last);
    } else if j + 1 < |Right(level)| {
      SnocBehind(level[i + 1], rest, last);
    }
  }

  lemma PathHalves<D>(h: (D, D) -> D, i: nat, leaves: seq<D>, k: nat)
    requires i < |leaves| && |leaves| > 1 && k == Split(|leaves|)
    ensures i < k ==> i < |Left(leaves)|
                      && Path(h, i, leaves) == Snoc(Path(h, i, Left(leaves)), Mth(h, Right(leaves)))
    ensures i >= k ==> i - k < |Right(leaves)|
                       && Path(h, i, leaves) == Snoc(Path(h, i - k, Right(leaves)), Mth(h, Left(leaves)))
  {
  }

  /** An audit path is an audit path one level up, extended with the sibling on the leaf level. */
  lemma {:induction false} PathUp<D>(h: (D, D) -> D, i: nat, half: nat, level: seq<D>)
    requires i < |level| && half == i / 2
    ensures half < |PairLevel(h, level)|
    ensures Path(h, i, level) == WithSibling(level, i, Path(h, half, PairLevel(h, level)))
    decreases |level|, 1
  {
    PairLevelSize(h, level);
    if |level| > 2 {
      PathUpHalves(h, i, half, level, Split(|level|));
    } else if |level| == 2 {
      assert PairLevel(h, level) == [h(level[0], level[1])];
    }
  }

  lemma {:induction false} PathUpHalves<D>(h: (D, D) -> D, i: nat, half: nat, level: seq<D>, k: nat)
    requires i < |level| && |level| > 2 && half == i / 2 < |PairLevel(h, level)| && k == Split(|level|)
    ensures Path(h, i, level) == WithSibling(level, i, Path(h, half, PairLevel(h, level)))
    decreases |level|, 0
  {
    hide *;
    var up := PairLevel(h, level);
    PairLevelHalves(h, level);
    PairLevelKeepsMth(h, Left(level));
    PairLevelKeepsMth(h, Right(level));
    PathHalves(h, i, level, k);
    PathHalves(h, half, up, Split(|up|));
    if i < k {
      PathUp(h, i, half, Left(level));
      WithSiblingInLeft(level, i, Path(h, half, Left(up)), Mth(h, Right(up)));
    } else {
      PathUp(h, i - k, half - Split(|up|), Right(level));
      WithSiblingInRight(level, i, i - k, Path(h, half - Split(|up|), Right(up)), Mth(h, Left(up)));
    }
  }

  /** The lengths asked for by the verifier follow the levels, too. */
  lemma {:induction false} ProofLengthUp(index: nat, size: nat)
    requires index < size && size > 1
    ensures ProofLength(index, size) == ProofLength(index / 2, (size + 1) / 2)
                                        + if index + 1 == size && index % 2 == 0 then 0 else 1
    ensures index + 1 < size ==> InnerProofSize(index, size) == 1 + InnerProofSize(index / 2, (size + 1) / 2)
    ensures index + 1 == size ==> InnerProofSize(index, size) == 0 == InnerProofSize(index / 2, (size + 1) / 2)
  {
    XorZero(index, size - 1);
    XorZero(index / 2, (size - 1) / 2);
    assert (size + 1) / 2 - 1 == (size - 1) / 2;
  }

  /** And so do the chains: a promoted node uses no sibling, any other node uses the first. */
  lemma FoldUp<D>(h: (D, D) -> D, node: D, index: nat, size: nat, proof: seq<D>, up: nat)
    requires index < size && size > 1 && |proof| == ProofLength(index, size) && up == (size + 1) / 2
    ensures index + 1 == size && index % 2 == 0 ==>
              && |proof| == ProofLength(index / 2, up)
              && Fold(h, node, index, size, proof) == Fold(h, node, index / 2, up, proof)
              && FoldLeft(h, node, index, size, proof) == FoldLeft(h, node, index / 2, up, proof)
    ensures !(index + 1 == size && index % 2 == 0) ==>
              && |proof| == 1 + ProofLength(index / 2, up)
              && Fold(h, node, index, size, proof)
                 == Fold(h, if index % 2 == 0 then h(node, proof[0]) else h(proof[0], node), index / 2, up, proof[1..])
              && FoldLeft(h, node, index, size, proof)
                 == FoldLeft(h, if index % 2 == 0 then node else h(proof[0], node), index / 2, up, proof[1..])
  {
    ProofLengthUp(index, size);
    var inner := InnerProofSize(index, size);
    if index + 1 < size {
      assert proof[..inner][1..] == proof[1..][..inner - 1];
      assert proof[inner..] == proof[1..][inner - 1..];
    } else {
      assert proof[..0] == [] && proof[0..] == proof;
      if index % 2 == 1 {
        assert proof[1..][..0] == [] && proof[1..][0..] == proof[1..];
      }
    }
  }

  lemma WithSiblingParts<D>(level: seq<D>, i: nat, rest: seq<D>)
    requires i < |level|
    ensures var all := WithSibling(level, i, rest);
            if i + 1 == |level| && i % 2 == 0 then all == rest
            else |all| == 1 + |rest| && all[1..] == rest && all[0] == level[if i % 2 == 1 then i - 1 else i + 1]
  {
  }

  // ----- Inclusion -----

  /** The audit path of a leaf has the length the verifier asks for and folds to the root. */
  lemma {:induction false} PathFolds<D>(h: (D, D) -> D, i: nat, leaves: seq<D>)
    requires i < |leaves|
    ensures |Path(h, i, leaves)| == ProofLength(i, |leaves|)
    ensures Fold(h, leaves[i], i, |leaves|, Path(h, i, leaves)) == Mth(h, leaves)
    decreases |leaves|, 1
  {
    if |leaves| > 1 {
      PathFoldsStep(h, i, leaves);
    }
  }

  lemma {:induction false} PathFoldsStep<D>(h: (D, D) -> D, i: nat, leaves: seq<D>)
    requires i < |leaves| && |leaves| > 1
    ensures |Path(h, i, leaves)| == ProofLength(i, |leaves|)
    ensures Fold(h, leaves[i], i, |leaves|, Path(h, i, leaves)) == Mth(h, leaves)
    decreases |leaves|, 0
  {
    hide *;
    var up := PairLevel(h, leaves);
    PairLevelSize(h, leaves);
    PairLevelAt(h, leaves, i / 2);
    PairLevelKeepsMth(h, leaves);
    PathUp(h, i, i / 2, leaves);
    PathFolds(h, i / 2, up);
    WithSiblingParts(leaves, i, Path(h, i / 2, up));
    ProofLengthUp(i, |leaves|);
    FoldUp(h, leaves[i], i, |leaves|, Path(h, i, leaves), |up|);
  }

  /** With an injective node hash, only the leaf and its audit path fold to the root. */
  lemma {:induction false} FoldBinds<D(!new)>(h: (D, D) -> D, node: D, i: nat, leaves: seq<D>, proof: seq<D>)
    requires Injective(h)
    requires i < |leaves| && |proof| == ProofLength(i, |leaves|)
    requires Fold(h, node, i, |leaves|, proof) == Mth(h, leaves)
    ensures node == leaves[i] && proof == Path(h, i, leaves)
    decreases |leaves|, 1
  {
    if |leaves| > 1 {
      FoldBindsStep(h, node, i, leaves, proof);
    }
  }

  lemma {:induction false} FoldBindsStep<D(!new)>(h: (D, D) -> D, node: D, i: nat, leaves: seq<D>, proof: seq<D>)
    requires Injective(h)
    requires i < |leaves| && |leaves| > 1 && |proof| == ProofLength(i, |leaves|)
    requires Fold(h, node, i, |leaves|, proof) == Mth(h, leaves)
    ensures node == leaves[i] && proof == Path(h, i, leaves)
    decreases |leaves|, 0
  {
    hide Fold, ProofLength, Mth, Path, PairLevel, WithSibling;
    var up := PairLevel(h, leaves);
    PairLevelSize(h, leaves);
    PairLevelAt(h, leaves, i / 2);
    PairLevelKeepsMth(h, leaves);
    PathUp(h, i, i / 2, leaves);
    WithSiblingParts(leaves, i, Path(h, i / 2, up));
    FoldUp(h, node, i, |leaves|, proof, |up|);
    if i + 1 == |leaves| && i % 2 == 0 {
      FoldBinds(h, node, i / 2, up, proof);
    } else {
      FoldBinds(h, if i % 2 == 0 then h(node, proof[0]) else h(proof[0], node), i / 2, up, proof[1..]);
      assert proof == [proof[0]] + proof[1..];
    }
  }

  /** Completeness: a leaf with its audit path always reconstructs the root. */
  lemma InclusionComplete<D>(h: (D, D) -> D, i: nat, leaves: seq<D>)
    requires i < |leaves|
    ensures InclusionRoot(h, i, |leaves|, leaves[i], Path(h, i, leaves)) == Some(Mth(h, leaves))
  {
    PathFolds(h, i, leaves);
  }

  /** Exactness: the root is reconstructed by that leaf and that path, and by nothing else. */
  lemma InclusionExact<D(!new)>(h: (D, D) -> D, i: nat, leaves: seq<D>, leaf: D, proof: seq<D>)
    requires Injective(h)
    requires i < |leaves|
    ensures InclusionRoot(h, i, |leaves|, leaf, proof) == Some(Mth(h, leaves))
            <==> leaf == leaves[i] && proof == Path(h, i, leaves)
  {
    PathFolds(h, i, leaves);
    if InclusionRoot(h, i, |leaves|, leaf, proof) == Some(Mth(h, leaves)) {
      FoldBinds(h, leaf, i, leaves, proof);
    }
  }

  // ----- Consistency -----

  /** Pairing a cut level that ends in another node. */
  lemma PairLevelReplaceLast<D>(h: (D, D) -> D, level: seq<D>, i: nat, node: D)
    requires i < |level|
    ensures i / 2 < |PairLevel(h, level)|
    ensures PairLevel(h, level[..i] + [node])
            == PairLevel(h, level)[..i / 2] + [if i % 2 == 0 then node else h(level[i - 1], node)]
  {
    PairLevelSize(h, level);
    if i % 2 == 0 {
      PairLevelCut(h, level, i, i / 2);
      PairLevelJoin(h, level[..i], [node]);
    } else {
      PairLevelReplaceLastOdd(h, level, i, i / 2, [level[i - 1], node]);
      assert level[..i] + [node] == level[..i - 1] + [level[i - 1], node];
    }
  }

  lemma {:induction false} PairLevelReplaceLastOdd<D>(h: (D, D) -> D, level: seq<D>, i: nat, half: nat, pair: seq<D>)
    requires i < |level| && i == 2 * half + 1 && |pair| == 2
    ensures half < |PairLevel(h, level)|
    ensures PairLevel(h, level[..i - 1] + pair) == PairLevel(h, level)[..half] + [h(pair[0], pair[1])]
  {
    assert PairLevel(h, pair) == [h(pair[0], pair[1])];
    hide PairLevel;
    PairLevelSize(h, level);
    PairLevelCut(h, level, i - 1, half);
    PairLevelJoin(h, level[..i - 1], pair);
  }

  /** Folding only left siblings rebuilds the tree that ends at the folded node. */
  lemma {:induction false} FoldLeftRebuilds<D>(h: (D, D) -> D, node: D, i: nat, leaves: seq<D>)
    requires i < |leaves| && |Path(h, i, leaves)| == ProofLength(i, |leaves|)
    ensures FoldLeft(h, node, i, |leaves|, Path(h, i, leaves)) == Mth(h, leaves[..i] + [node])
    decreases |leaves|, 1
  {
    if |leaves| > 1 {
      FoldLeftRebuildsStep(h, node, i, leaves);
    } else {
      assert leaves[..i] + [node] == [node];
    }
  }

  lemma {:induction false} FoldLeftRebuildsStep<D>(h: (D, D) -> D, node: D, i: nat, leaves: seq<D>)
    requires i < |leaves| && |leaves| > 1 && |Path(h, i, leaves)| == ProofLength(i, |leaves|)
    ensures FoldLeft(h, node, i, |leaves|, Path(h, i, leaves)) == Mth(h, leaves[..i] + [node])
    decreases |leaves|, 0
  {
    hide *;
    var up := PairLevel(h, leaves);
    PairLevelSize(h, leaves);
    PairLevelReplaceLast(h, leaves, i, node);
    PairLevelKeepsMth(h, leaves[..i] + [node]);
    PathUp(h, i, i / 2, leaves);
    PathFolds(h, i / 2, up);
    FoldLeftRebuilds(h, if i % 2 == 0 then node else h(leaves[i - 1], node), i / 2, up);
    WithSiblingParts(leaves, i, Path(h, i / 2, up));
    FoldUp(h, node, i, |leaves|, Path(h, i, leaves), |up|);
  }

  lemma SubProofHalves<D>(h: (D, D) -> D, m: nat, leaves: seq<D>, whole: bool, k: nat)
    requires 0 < m < |leaves| && k == Split(|leaves|)
    ensures m <= k ==> m <= |Left(leaves)|
                       && SubProof(h, m, leaves, whole)
                          == Snoc(SubProof(h, m, Left(leaves), whole), Mth(h, Right(leaves)))
    ensures m > k ==> m - k <= |Right(leaves)|
                      && SubProof(h, m, leaves, whole)
                         == Snoc(SubProof(h, m - k, Right(leaves), false), Mth(h, Left(leaves)))
  {
  }

  /** For an even old size, the consistency proof is that of the level above. */
  lemma {:induction false} SubProofUp<D>(h: (D, D) -> D, m: nat, half: nat, level: seq<D>, whole: bool)
    requires 0 < m <= |level| && m == 2 * half
    ensures half <= |PairLevel(h, level)|
    ensures SubProof(h, m, level, whole) == SubProof(h, half, PairLevel(h, level), whole)
    decreases |level|, 1
  {
    PairLevelSize(h, level);
    PairLevelKeepsMth(h, level);
    if m == |level| {
      assert |PairLevel(h, level)| == half;
    } else {
      SubProofUpHalves(h, m, half, level, whole, Split(|level|));
    }
  }

  lemma {:induction false} SubProofUpHalves<D>(h: (D, D) -> D, m: nat, half: nat, level: seq<D>, whole: bool, k: nat)
    requires 0 < m < |level| && m == 2 * half && half < |PairLevel(h, level)| && k == Split(|level|)
    ensures SubProof(h, m, level, whole) == SubProof(h, half, PairLevel(h, level), whole)
    decreases |level|, 0
  {
    hide *;
    var up := PairLevel(h, level);
    PairLevelHalves(h, level);
    PairLevelKeepsMth(h, Left(level));
    PairLevelKeepsMth(h, Right(level));
    SubProofHalves(h, m, level, whole, k);
    SubProofHalves(h, half, up, whole, Split(|up|));
    if m <= k {
      SubProofUp(h, m, half, Left(level), whole);
    } else {
      SubProofUp(h, m - k, half - Split(|up|), Right(level), false);
    }
  }

  /** The consistency proof for an odd old size: the last old leaf, unless the old tree is that leaf, and its path. */
  function OddProof<D>(h: (D, D) -> D, m: nat, leaves: seq<D>, whole: bool): seq<D>
    requires 0 < m <= |leaves|
  {
    (if whole && m == 1 then [] else [leaves[m - 1]]) + Path(h, m - 1, leaves)
  }

  lemma {:induction false} OddProofHalves<D>(h: (D, D) -> D, m: nat, leaves: seq<D>, whole: bool, k: nat)
    requires 0 < m < |leaves| && |leaves| > 2 && k == Split(|leaves|)
    ensures m <= k ==> m <= |Left(leaves)|
                       && OddProof(h, m, leaves, whole)
                          == Snoc(OddProof(h, m, Left(leaves), whole), Mth(h, Right(leaves)))
    ensures m > k ==> m - k <= |Right(leaves)|
                      && OddProof(h, m, leaves, whole)
                         == Snoc(OddProof(h, m - k, Right(leaves), false), Mth(h, Left(leaves)))
  {
    hide Path, Mth, Split;
    var start := if whole && m == 1 then [] else [leaves[m - 1]];
    var last := Mth(h, if m <= k then Right(leaves) else Left(leaves));
    var path := if m <= k then Path(h, m - 1, Left(leaves)) else Path(h, m - 1 - k, Right(leaves));
    PathHalves(h, m - 1, leaves, k);
    assert start + Snoc(path, last) == Snoc(start + path, last);
  }

  lemma {:induction false} SubProofOdd<D>(h: (D, D) -> D, m: nat, half: nat, leaves: seq<D>, whole: bool)
    requires m < |leaves| && m == 2 * half + 1
    ensures SubProof(h, m, leaves, whole) == OddProof(h, m, leaves, whole)
    decreases |leaves|, 1
  {
    if |leaves| > 2 {
      SubProofOddHalves(h, m, half, leaves, whole, Split(|leaves|), Split(|leaves|) / 2);
    } else {
      PathHalves(h, 0, leaves, 1);
      SubProofHalves(h, 1, leaves, whole, 1);
      assert Left(leaves) == [leaves[0]];
    }
  }

  lemma {:induction false} SubProofOddHalves<D>(h: (D, D) -> D, m: nat, half: nat, leaves: seq<D>, whole: bool,
                                                k: nat, halfK: nat)
    requires m < |leaves| && m == 2 * half + 1 && |leaves| > 2 && k == Split(|leaves|) == 2 * halfK
    ensures SubProof(h, m, leaves, whole) == OddProof(h, m, leaves, whole)
    decreases |leaves|, 0
  {
    assert |Left(leaves)| == k && |Right(leaves)| == |leaves| - k;
    hide *;
    SubProofHalves(h, m, leaves, whole, k);
    OddProofHalves(h, m, leaves, whole, k);
    if m <= k {
      SubProofOdd(h, m, half, Left(leaves), whole);
    } else {
      SubProofOdd(h, m - k, half - halfK, Right(leaves), false);
    }
  }

  /** The level `s` rounds of pairing above. */
  function Raise<D>(h: (D, D) -> D, level: seq<D>, s: nat): seq<D>
    decreases s
  {
    if s == 0 then level else Raise(h, PairLevel(h, level), s - 1)
  }

  /** Old and new tree, and the proof between them, seen on the level at which the old size becomes odd. */
  lemma {:induction false} AtOddLevel<D>(h: (D, D) -> D, m: nat, leaves: seq<D>, s: nat, odd: nat, top: seq<D>)
    requires 0 < m < |leaves|
    requires s == TrailingZeros(m) && odd == Shr(m, s) && top == Raise(h, leaves, s)
    ensures odd % 2 == 1 && odd < |top| == Shr(|leaves| - 1, s) + 1
    ensures Mth(h, top) == Mth(h, leaves)
    ensures Mth(h, top[..odd]) == Mth(h, leaves[..m])
    ensures Proof(h, m, leaves) == Proof(h, odd, top)
    decreases s, 1
  {
    if m % 2 == 0 {
      AtOddLevelStep(h, m, leaves, s, odd, top);
    }
  }

  lemma OneLevelUp(m: nat, n: nat, up: nat, s: nat)
    requires 0 < m < n && m % 2 == 0 && s == TrailingZeros(m)
    ensures s > 0 && 0 < m / 2 < (n + 1) / 2 && TrailingZeros(m / 2) == s - 1 && Shr(m / 2, s - 1) == Shr(m, s)
    ensures up == (n + 1) / 2 ==> Shr(n - 1, s) == Shr(up - 1, s - 1)
  {
  }

  lemma RaiseUnfolds<D>(h: (D, D) -> D, level: seq<D>, s: nat)
    requires s > 0
    ensures Raise(h, level, s) == Raise(h, PairLevel(h, level), s - 1)
  {
  }

  lemma ProofIsSubProof<D>(h: (D, D) -> D, m: nat, leaves: seq<D>)
    requires 0 < m <= |leaves|
    ensures Proof(h, m, leaves) == SubProof(h, m, leaves, true)
  {
  }

  lemma {:induction false} AtOddLevelStep<D>(h: (D, D) -> D, m: nat, leaves: seq<D>, s: nat, odd: nat, top: seq<D>)
    requires 0 < m < |leaves| && m % 2 == 0
    requires s == TrailingZeros(m) && odd == Shr(m, s) && top == Raise(h, leaves, s)
    ensures odd % 2 == 1 && odd < |top| == Shr(|leaves| - 1, s) + 1
    ensures Mth(h, top) == Mth(h, leaves)
    ensures Mth(h, top[..odd]) == Mth(h, leaves[..m])
    ensures Proof(h, m, leaves) == Proof(h, odd, top)
    decreases s, 0
  {
    hide *;
    var up := PairLevel(h, leaves);
    OneLevelUp(m, |leaves|, |up|, s);
    RaiseUnfolds(h, leaves, s);
    PairLevelSize(h, leaves);
    SubProofUp(h, m, m / 2, leaves, true);
    ProofIsSubProof(h, m, leaves);
    ProofIsSubProof(h, m / 2, up);
    AtOddLevel(h, m / 2, up, s - 1, odd, top);
    PairLevelKeepsMth(h, leaves);
    PairLevelKeepsMth(h, leaves[..m]);
    PairLevelCut(h, leaves, m, m / 2);
  }

  /** The verifier's decomposition, seen on that level. */
  lemma {:induction false} DecompAtOddLevel(m: nat, n: nat, s: nat, odd: nat, size: nat)
    requires 0 < m < n
    requires s == TrailingZeros(m) && odd == Shr(m, s) && size == Shr(n - 1, s) + 1
    ensures 0 < odd < size && Shr(m - 1, s) == odd - 1
    ensures InnerProofSize(m - 1, n) == s + InnerProofSize(odd - 1, size) && InnerProofSize(odd - 1, size) > 0
    ensures DecompInclusionProof(m - 1, n).1 == DecompInclusionProof(odd - 1, size).1
  {
    hide PopCount;
    if m % 2 == 0 {
      DecompAtOddLevel(m / 2, (n + 1) / 2, s - 1, odd, size);
      ProofLengthUp(m - 1, n);
      assert (m - 1) / 2 == m / 2 - 1;
    } else {
      XorZero(m - 1, n - 1);
    }
  }

  /** The trailing zeros of the old size are always strictly below the inner length. */
  lemma ShiftBelowInner(m: nat, n: nat)
    requires 0 < m < n
    ensures TrailingZeros(m) < InnerProofSize(m - 1, n)
  {
    var s := TrailingZeros(m);
    DecompAtOddLevel(m, n, s, Shr(m, s), Shr(n - 1, s) + 1);
  }

  /** What the verifier computes, seen on that level: `seed` is the node it starts from. */
  lemma ConsistencyAtOddLevel<D>(h: (D, D) -> D, m: nat, n: nat, root1: D, proof: seq<D>, s: nat, odd: nat, size: nat,
                                 seed: D, suffix: seq<D>)
    requires 0 < m < n && proof != []
    requires s == TrailingZeros(m) && odd == Shr(m, s) && size == Shr(n - 1, s) + 1
    requires if odd == 1 then seed == root1 && suffix == proof else seed == proof[0] && suffix == proof[1..]
    ensures 0 < odd < size
    ensures ConsistencyRoot(h, m, n, root1, proof)
            == if |suffix| != ProofLength(odd - 1, size) || FoldLeft(h, seed, odd - 1, size, suffix) != root1 then None
               else Some(Fold(h, seed, odd - 1, size, suffix))
  {
    DecompAtOddLevel(m, n, s, odd, size);
    LowestBitOnly(m);
    assert proof[0..] == proof;
  }

  /** The proof on that level, in the verifier's terms. */
  lemma {:induction false} ProofAtOddLevel<D>(h: (D, D) -> D, odd: nat, top: seq<D>)
    requires odd % 2 == 1 && odd < |top|
    ensures Proof(h, odd, top) == (if odd == 1 then [] else [top[odd - 1]]) + Path(h, odd - 1, top)
    ensures |Path(h, odd - 1, top)| == ProofLength(odd - 1, |top|) > 0
  {
    hide Path, Mth, SubProof, PopCount, Xor, Shr;
    XorZero(odd - 1, |top| - 1);
    SubProofOdd(h, odd, odd / 2, top, true);
    PathFolds(h, odd - 1, top);
  }

  lemma OldTreeAtOddLevel<D>(h: (D, D) -> D, odd: nat, top: seq<D>)
    requires 0 < odd < |top|
    ensures top[..odd - 1] + [top[odd - 1]] == top[..odd]
    ensures odd == 1 ==> Mth(h, top[..odd]) == top[0]
  {
  }

  /** Completeness, with no assumption on the hash: the proof of RFC 6962 is accepted and gives the new root. */
  lemma ConsistencyComplete<D>(h: (D, D) -> D, m: nat, leaves: seq<D>)
    requires 0 < m <= |leaves|
    ensures ConsistencyRoot(h, m, |leaves|, Mth(h, leaves[..m]), Proof(h, m, leaves)) == Some(Mth(h, leaves))
  {
    if m < |leaves| {
      ConsistencyCompleteBelow(h, m, leaves);
    } else {
      assert leaves[..m] == leaves;
    }
  }

  lemma {:induction false} ConsistencyCompleteBelow<D>(h: (D, D) -> D, m: nat, leaves: seq<D>)
    requires 0 < m < |leaves|
    ensures ConsistencyRoot(h, m, |leaves|, Mth(h, leaves[..m]), Proof(h, m, leaves)) == Some(Mth(h, leaves))
  {
    hide *;
    var s := TrailingZeros(m);
    var odd, top := Shr(m, s), Raise(h, leaves, s);
    AtOddLevel(h, m, leaves, s, odd, top);
    ProofAtOddLevel(h, odd, top);
    OldTreeAtOddLevel(h, odd, top);
    PathFolds(h, odd - 1, top);
    FoldLeftRebuilds(h, top[odd - 1], odd - 1, top);
    ConsistencyAtOddLevel(h, m, |leaves|, Mth(h, leaves[..m]), Proof(h, m, leaves),
                          s, odd, |top|, top[odd - 1], Path(h, odd - 1, top));
  }

  /** Exactness: only the true old root with the proof of RFC 6962 yields the true new root. */
  lemma ConsistencyExact<D(!new)>(h: (D, D) -> D, m: nat, leaves: seq<D>, root1: D, proof: seq<D>)
    requires Injective(h)
    requires 0 < m <= |leaves|
    ensures ConsistencyRoot(h, m, |leaves|, root1, proof) == Some(Mth(h, leaves))
            <==> root1 == Mth(h, leaves[..m]) && proof == Proof(h, m, leaves)
  {
    ConsistencyComplete(h, m, leaves);
    if m == |leaves| {
      assert leaves[..m] == leaves;
    } else if ConsistencyRoot(h, m, |leaves|, root1, proof) == Some(Mth(h, leaves)) {
      ConsistencySound(h, m, leaves, root1, proof);
    }
  }

  lemma {:induction false} ConsistencySound<D(!new)>(h: (D, D) -> D, m: nat, leaves: seq<D>, root1: D, proof: seq<D>)
    requires Injective(h)
    requires 0 < m < |leaves| && proof != []
    requires ConsistencyRoot(h, m, |leaves|, root1, proof) == Some(Mth(h, leaves))
    ensures root1 == Mth(h, leaves[..m]) && proof == Proof(h, m, leaves)
  {
    hide *;
    var s := TrailingZeros(m);
    var odd, top := Shr(m, s), Raise(h, leaves, s);
    AtOddLevel(h, m, leaves, s, odd, top);
    var (seed, suffix) := if odd == 1 then (root1, proof) else (proof[0], proof[1..]);
    ConsistencyAtOddLevel(h, m, |leaves|, root1, proof, s, odd, |top|, seed, suffix);
    FoldBinds(h, seed, odd - 1, top, suffix);
    FoldLeftRebuilds(h, seed, odd - 1, top);
    ProofAtOddLevel(h, odd, top);
    OldTreeAtOddLevel(h, odd, top);
    assert proof == if odd == 1 then [] + suffix else [seed] + suffix;
  }
}
