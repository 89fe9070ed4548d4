/** What inclusion records prove when the head checkpoint covers fewer leaves than the ledger has. */
module HeadCoverage {
  import opened Bits
  import opened ExportProofs
  import opened MerkleProofs
  import opened MerkleTree
  import opened Wrappers

  // ----- The fold over a proof, from the root down -----

  /** The depth of leaf `i` in the tree of `n` leaves. */
  function Depth(i: nat, n: nat): nat
    requires i < n
    decreases n
  {
    if n == 1 then 0 else if i < Split(n) then 1 + Depth(i, Split(n)) else 1 + Depth(i - Split(n), n - Split(n))
  }

  function Folded<D>(h: (D, D) -> D, node: D, i: nat, n: nat, proof: seq<D>): D
    requires i < n && |proof| == Depth(i, n)
    decreases n
  {
    if n == 1 then node
    else
      var k, last, front := Split(n), proof[|proof| - 1], proof[..|proof| - 1];
      if i < k then h(Folded(h, node, i, k, front), last) else h(last, Folded(h, node, i - k, n - k, front))
  }

  /** `i` and `n` seen one level up. */
  predicate Above(i: nat, n: nat, q: nat, up: nat) {
    i < n && (i == 2 * q || i == 2 * q + 1) && (n == 2 * up || n + 1 == 2 * up)
  }

  /** The node is the last of its level and moves up unpaired. */
  predicate Promoted(i: nat, n: nat) {
    i + 1 == n && i % 2 == 0
  }

  lemma SplitAbove(n: nat, up: nat)
    requires n > 2 && (n == 2 * up || n + 1 == 2 * up)
    ensures up > 1 && Split(n) == 2 * Split(up)
  {
    assert (n + 1) / 2 == up;
  }

  lemma AboveLeft(i: nat, n: nat, q: nat, up: nat, half: nat)
    requires Above(i, n, q, up) && i < 2 * half < n
    ensures q < half && Above(i, 2 * half, q, half) && !Promoted(i, 2 * half) && !Promoted(i, n)
  {
  }

  lemma AboveRight(i: nat, n: nat, q: nat, up: nat, half: nat)
    requires Above(i, n, q, up) && 2 * half <= i
    ensures half <= q && half <= up && Above(i - 2 * half, n - 2 * half, q - half, up - half)
    ensures Promoted(i - 2 * half, n - 2 * half) <==> Promoted(i, n)
  {
    assert (i - 2 * half) % 2 == i % 2;
  }

  lemma {:induction false} AboveHalves(i: nat, n: nat, q: nat, up: nat, k: nat)
    requires Above(i, n, q, up) && n > 2 && k == Split(n)
    ensures i < n && up > 1 && q < up && k == 2 * Split(up)
    ensures i < k ==> q < Split(up) && Above(i, k, q, Split(up)) && !Promoted(i, k) && !Promoted(i, n)
    ensures i >= k ==> q >= Split(up) && Above(i - k, n - k, q - Split(up), up - Split(up))
                       && (Promoted(i - k, n - k) <==> Promoted(i, n))
  {
    hide Split, Promoted;
    SplitAbove(n, up);
    if i < k {
      AboveLeft(i, n, q, up, Split(up));
    } else {
      AboveRight(i, n, q, up, Split(up));
    }
  }

  lemma DepthHalves(i: nat, n: nat, k: nat)
    requires i < n && n > 1 && k == Split(n)
    ensures Depth(i, n) == 1 + if i < k then Depth(i, k) else Depth(i - k, n - k)
  {
  }

  lemma DepthOfFew(i: nat, n: nat)
    requires i < n <= 2
    ensures Depth(i, n) == n - 1
  {
    assert n == 2 ==> Split(n) == 1;
  }

  /** One level up the depth shrinks by one, except for a node that moves up unpaired. */
  lemma {:induction false} DepthUp(i: nat, n: nat, q: nat, up: nat)
    requires Above(i, n, q, up) && n > 1
    ensures q < up && Depth(i, n) == Depth(q, up) + if Promoted(i, n) then 0 else 1
    decreases n, 1
  {
    if n > 2 {
      DepthUpHalves(i, n, q, up, Split(n));
    } else {
      DepthOfFew(i, n);
      DepthOfFew(q, up);
    }
  }

  lemma {:induction false} DepthUpHalves(i: nat, n: nat, q: nat, up: nat, k: nat)
    requires Above(i, n, q, up) && n > 2 && k == Split(n)
    ensures q < up && Depth(i, n) == Depth(q, up) + if Promoted(i, n) then 0 else 1
    decreases n, 0
  {
    hide *;
    AboveHalves(i, n, q, up, k);
    DepthHalves(i, n, k);
    DepthHalves(q, up, Split(up));
    if i < k {
      DepthUp(i, k, q, Split(up));
    } else if n - k > 1 {
      DepthUp(i - k, n - k, q - Split(up), up - Split(up));
    } else {
      LastAlone(i - k, n - k, q - Split(up), up - Split(up));
    }
  }

  lemma LastAlone(i: nat, n: nat, q: nat, up: nat)
    requires Above(i, n, q, up) && n <= 1
    ensures q == 0 && up == 1 && Promoted(i, n)
  {
  }

  /** What a node becomes one level up. */
  function Parent<D>(h: (D, D) -> D, node: D, i: nat, n: nat, proof: seq<D>): D
    requires Promoted(i, n) || proof != []
  {
    if Promoted(i, n) then node else if i % 2 == 0 then h(node, proof[0]) else h(proof[0], node)
  }

  function Rest<D>(i: nat, n: nat, proof: seq<D>): seq<D>
    requires Promoted(i, n) || proof != []
  {
    if Promoted(i, n) then proof else proof[1..]
  }

  lemma FoldedHalves<D>(h: (D, D) -> D, node: D, i: nat, n: nat, proof: seq<D>, k: nat)
    requires i < n && n > 1 && k == Split(n) && |proof| == Depth(i, n)
    ensures proof != []
    ensures var last, front := proof[|proof| - 1], proof[..|proof| - 1];
            if i < k then
              && |front| == Depth(i, k)
              && Folded(h, node, i, n, proof) == h(Folded(h, node, i, k, front), last)
            else
              && |front| == Depth(i - k, n - k)
              && Folded(h, node, i, n, proof) == h(last, Folded(h, node, i - k, n - k, front))
  {
  }

  lemma FrontAndRest<D>(h: (D, D) -> D, node: D, i: nat, n: nat, i': nat, n': nat, proof: seq<D>)
    requires |proof| > (if Promoted(i, n) then 0 else 1)
    requires (Promoted(i, n) <==> Promoted(i', n')) && i % 2 == i' % 2
    ensures var front := proof[..|proof| - 1];
            && (Promoted(i', n') || front != [])
            && Parent(h, node, i', n', front) == Parent(h, node, i, n, proof)
            && Rest(i, n, proof) != [] && Rest(i, n, proof)[|Rest(i, n, proof)| - 1] == proof[|proof| - 1]
            && Rest(i', n', front) == Rest(i, n, proof)[..|Rest(i, n, proof)| - 1]
  {
  }

  /** The fold from the root down follows the levels. */
  lemma {:induction false} FoldedUp<D>(h: (D, D) -> D, node: D, i: nat, n: nat, q: nat, up: nat, proof: seq<D>)
    requires Above(i, n, q, up) && n > 1 && |proof| == Depth(i, n)
    ensures q < up && (Promoted(i, n) || proof != []) && |Rest(i, n, proof)| == Depth(q, up)
    ensures Folded(h, node, i, n, proof) == Folded(h, Parent(h, node, i, n, proof), q, up, Rest(i, n, proof))
    decreases n, 1
  {
    DepthUp(i, n, q, up);
    if n > 2 {
      FoldedUpHalves(h, node, i, n, q, up, proof, Split(n));
    } else {
      assert Split(2) == 1 && Depth(0, 1) == 0;
    }
  }

  lemma {:induction false} FoldedUpHalves<D>(h: (D, D) -> D, node: D, i: nat, n: nat, q: nat, up: nat, proof: seq<D>,
                                             k: nat)
    requires Above(i, n, q, up) && n > 2 && |proof| == Depth(i, n) && k == Split(n)
    requires q < up && (Promoted(i, n) || proof != []) && |Rest(i, n, proof)| == Depth(q, up)
    ensures Folded(h, node, i, n, proof) == Folded(h, Parent(h, node, i, n, proof), q, up, Rest(i, n, proof))
    decreases n, 0
  {
    hide *;
    AboveHalves(i, n, q, up, k);
    FoldedHalves(h, node, i, n, proof, k);
    var half, parent, rest, front := Split(up), Parent(h, node, i, n, proof), Rest(i, n, proof), proof[..|proof| - 1];
    FoldedHalves(h, parent, q, up, rest, half);
    if i < k {
      FoldedUp(h, node, i, k, q, half, front);
      FrontAndRest(h, node, i, n, i, k, proof);
    } else if n - k > 1 {
      FoldedUp(h, node, i - k, n - k, q - half, up - half, front);
      FrontAndRest(h, node, i, n, i - k, n - k, proof);
    } else {
      LastAlone(i - k, n - k, q - half, up - half);
      PromotedIsKept(h, node, i, n, proof);
      FoldedAlone(h, node, front);
    }
  }

  lemma PromotedIsKept<D>(h: (D, D) -> D, node: D, i: nat, n: nat, proof: seq<D>)
    requires Promoted(i, n)
    ensures Parent(h, node, i, n, proof) == node && Rest(i, n, proof) == proof
  {
  }

  lemma FoldedAlone<D>(h: (D, D) -> D, node: D, proof: seq<D>)
    requires |proof| == Depth(0, 1)
    ensures Folded(h, node, 0, 1, proof) == node
  {
  }

  lemma DepthIsLength(i: nat, n: nat)
    requires i < n
    ensures Depth(i, n) == ProofLength(i, n)
    decreases n
  {
    hide Split;
    if n > 1 {
      DepthUp(i, n, i / 2, (n + 1) / 2);
      DepthIsLength(i / 2, (n + 1) / 2);
      ProofLengthUp(i, n);
    } else {
      XorZero(0, 0);
    }
  }

  /** The verifier's fold from the leaf up is the fold from the root down. */
  lemma {:induction false} FoldIsFolded<D>(h: (D, D) -> D, node: D, i: nat, n: nat, proof: seq<D>)
    requires i < n && |proof| == ProofLength(i, n)
    ensures |proof| == Depth(i, n) && Fold(h, node, i, n, proof) == Folded(h, node, i, n, proof)
    decreases n, 1
  {
    DepthIsLength(i, n);
    if n > 1 {
      FoldIsFoldedStep(h, node, i, n, proof, i / 2, (n + 1) / 2);
    } else {
      XorZero(0, 0);
    }
  }

  lemma {:induction false} FoldIsFoldedStep<D>(h: (D, D) -> D, node: D, i: nat, n: nat, proof: seq<D>, q: nat, up: nat)
    requires i < n && n > 1 && |proof| == ProofLength(i, n) == Depth(i, n)
    requires q == i / 2 && up == (n + 1) / 2
    ensures Fold(h, node, i, n, proof) == Folded(h, node, i, n, proof)
    decreases n, 0
  {
    hide Fold, ProofLength, Folded, Depth, FoldLeft, Split;
    FoldUp(h, node, i, n, proof, up);
    FoldedUp(h, node, i, n, q, up, proof);
    DepthIsLength(q, up);
    FoldIsFolded(h, Parent(h, node, i, n, proof), q, up, Rest(i, n, proof));
  }

  // ----- Meeting another tree -----

  /** No leaf is the hash of two nodes, as their domains are separated. */
  ghost predicate Separated<D(!new)>(h: (D, D) -> D, leaves: seq<D>) {
    forall k, a, b :: 0 <= k < |leaves| ==> leaves[k] != h(a, b)
  }

  ghost predicate Apart<D(!new)>(h: (D, D) -> D, node: D) {
    forall a, b :: node != h(a, b)
  }

  ghost predicate Distinct<D>(leaves: seq<D>) {
    forall i, j :: 0 <= i < j < |leaves| ==> leaves[i] != leaves[j]
  }

  /** Leaf `i` of `n` and leaf `j` of `m` are reached by the same turns. */
  predicate SameTurns(i: nat, n: nat, j: nat, m: nat)
    requires i < n && j < m
    decreases n
  {
    if n == 1 || m == 1 then n == m
    else if i < Split(n) then j < Split(m) && SameTurns(i, Split(n), j, Split(m))
    else j >= Split(m) && SameTurns(i - Split(n), n - Split(n), j - Split(m), m - Split(m))
  }

  lemma {:induction false} TurnsSplit(i: nat, n: nat, j: nat, m: nat, k: nat, l: nat)
    requires i < n && j < m && n > 1 && m > 1 && k == Split(n) && l == Split(m)
    ensures i < k && j < l ==> SameTurns(i, n, j, m) == SameTurns(i, k, j, l)
    ensures i >= k && j >= l ==> SameTurns(i, n, j, m) == SameTurns(i - k, n - k, j - l, m - l)
  {
  }

  lemma TurnsAgree(i: nat, n: nat, j: nat, m: nat, k: nat, l: nat)
    requires i < n && j < m && n > 1 && m > 1 && k == Split(n) && l == Split(m) && SameTurns(i, n, j, m)
    ensures i < k <==> j < l
  {
  }

  lemma MthSplit<D>(h: (D, D) -> D, leaves: seq<D>)
    requires leaves != []
    ensures Mth(h, leaves)
            == if |leaves| == 1 then leaves[0] else h(Mth(h, Left(leaves)), Mth(h, Right(leaves)))
    ensures |leaves| > 1 ==>
              && |Left(leaves)| == Split(|leaves|) && |Right(leaves)| == |leaves| - Split(|leaves|)
              && (forall j :: 0 <= j < |Left(leaves)| ==> Left(leaves)[j] == leaves[j])
              && (forall j :: 0 <= j < |Right(leaves)| ==> Right(leaves)[j] == leaves[j + Split(|leaves|)])
  {
  }

  lemma SeparatedHalves<D(!new)>(h: (D, D) -> D, leaves: seq<D>)
    requires |leaves| > 1 && Separated(h, leaves)
    ensures Separated(h, Left(leaves)) && Separated(h, Right(leaves))
  {
  }

  /** A fold that gives the root of some tree has gone the turns to that node in it. */
  lemma {:induction false} FoldMeetsLeaf<D(!new)>(h: (D, D) -> D, node: D, i: nat, n: nat, proof: seq<D>,
                                                  leaves: seq<D>)
    returns (j: nat)
    requires Injective(h) && Apart(h, node) && Separated(h, leaves) && leaves != []
    requires i < n && |proof| == Depth(i, n) && Folded(h, node, i, n, proof) == Mth(h, leaves)
    ensures j < |leaves| && leaves[j] == node && SameTurns(i, n, j, |leaves|)
    decreases n, 1
  {
    if n > 1 && |leaves| > 1 {
      j := FoldMeetsHalf(h, node, i, n, proof, leaves, Split(n), Split(|leaves|));
    } else {
      j := 0;
    }
  }

  lemma {:induction false} FoldMeetsHalf<D(!new)>(h: (D, D) -> D, node: D, i: nat, n: nat, proof: seq<D>,
                                                  leaves: seq<D>, k: nat, l: nat)
    returns (j: nat)
    requires Injective(h) && Apart(h, node) && Separated(h, leaves) && n > 1 && |leaves| > 1
    requires k == Split(n) && l == Split(|leaves|)
    requires i < n && |proof| == Depth(i, n) && Folded(h, node, i, n, proof) == Mth(h, leaves)
    ensures j < |leaves| && leaves[j] == node && SameTurns(i, n, j, |leaves|)
    decreases n, 0
  {
    hide Depth, Folded, Mth, SameTurns, Separated, Apart, Left, Right, Split;
    FoldedHalves(h, node, i, n, proof, k);
    MthSplit(h, leaves);
    SeparatedHalves(h, leaves);
    var front := proof[..|proof| - 1];
    if i < k {
      j := FoldMeetsLeaf(h, node, i, k, front, Left(leaves));
    } else {
      j := FoldMeetsLeaf(h, node, i - k, n - k, front, Right(leaves));
      j := j + l;
    }
    TurnsSplit(i, n, j, |leaves|, k, l);
  }

  /** Trees of separated leaves with one root have one size. */
  lemma {:induction false} RootBindsSize<D(!new)>(h: (D, D) -> D, a: seq<D>, b: seq<D>)
    requires Injective(h) && Separated(h, a) && Separated(h, b)
    requires a != [] && b != [] && Mth(h, a) == Mth(h, b)
    ensures |a| == |b|
    decreases |a|
  {
    if |a| > 1 && |b| > 1 {
      RootBindsSize(h, Left(a), Left(b));
      RootBindsSize(h, Right(a), Right(b));
      assert |a| == |Left(a)| + |Right(a)| && |b| == |Left(b)| + |Right(b)|;
    }
  }

  // ----- Trees in which one index is reached by the same turns -----

  lemma {:induction false} SplitBits(n: nat)
    requires n > 1
    ensures BitLength(n - 1) == 1 + BitLength(Split(n) - 1)
  {
    if n > 2 {
      SplitBits((n + 1) / 2);
      assert (n + 1) / 2 - 1 == (n - 1) / 2 && (Split(n) - 1) / 2 == Split((n + 1) / 2) - 1;
    }
  }

  lemma {:induction false} PowersApart(x: nat, y: nat)
    requires IsPow2(x) && IsPow2(y) && x < y
    ensures 2 * x <= y && BitLength(x - 1) < BitLength(y - 1)
  {
    if x > 1 {
      PowersApart(x / 2, y / 2);
      assert (x - 1) / 2 == x / 2 - 1 && (y - 1) / 2 == y / 2 - 1;
    }
  }

  lemma {:induction false} SplitMonotone(m: nat, n: nat)
    requires 1 < m <= n
    ensures Split(m) <= Split(n)
  {
    if m > 2 {
      SplitMonotone((m + 1) / 2, (n + 1) / 2);
    }
  }

  /** An index reached by the same turns in a smaller tree: both trees need the same number of bits. */
  lemma {:induction false} SameTurnsSameBits(i: nat, n: nat, m: nat)
    requires i < m <= n && SameTurns(i, n, i, m)
    ensures BitLength(m - 1) == BitLength(n - 1)
    decreases n
  {
    hide BitLength, IsPow2, Split;
    if m > 1 {
      SplitMonotone(m, n);
      SplitBits(m);
      SplitBits(n);
      if Split(m) < Split(n) {
        PowersApart(Split(m), Split(n));
        SameTurnsSameBits(i, Split(n), Split(m));
      }
    }
  }

  /** With as many bits, the first leaf is reached by the same turns in both trees. */
  lemma {:induction false} FirstTurns(n: nat, m: nat)
    requires 0 < m && 0 < n && BitLength(m - 1) == BitLength(n - 1)
    ensures SameTurns(0, n, 0, m)
    decreases n
  {
    hide Split;
    if n > 1 && m > 1 {
      SplitBits(n);
      SplitBits(m);
      FirstTurns(Split(n), Split(m));
    }
  }

  // ----- What a head accepts -----

  /** The same turns are equally many and hash the same siblings. */
  lemma {:induction false} SameTurnsSameFold<D>(h: (D, D) -> D, node: D, i: nat, n: nat, j: nat, m: nat, proof: seq<D>)
    requires i < n && j < m && SameTurns(i, n, j, m) && |proof| == Depth(j, m)
    ensures |proof| == Depth(i, n) && Folded(h, node, i, n, proof) == Folded(h, node, j, m, proof)
    decreases n, 1
  {
    if n > 1 {
      SameTurnsSameFoldHalves(h, node, i, n, j, m, proof, Split(n), Split(m));
    }
  }

  lemma {:induction false} SameTurnsSameFoldHalves<D>(h: (D, D) -> D, node: D, i: nat, n: nat, j: nat, m: nat,
                                                      proof: seq<D>, k: nat, l: nat)
    requires i < n && j < m && n > 1 && m > 1 && k == Split(n) && l == Split(m)
    requires SameTurns(i, n, j, m) && |proof| == Depth(j, m)
    ensures |proof| == Depth(i, n) && Folded(h, node, i, n, proof) == Folded(h, node, j, m, proof)
    decreases n, 0
  {
    hide Depth, Folded, SameTurns, Split;
    TurnsAgree(i, n, j, m, k, l);
    FoldedHalves(h, node, j, m, proof, l);
    DepthHalves(i, n, k);
    TurnsSplit(i, n, j, m, k, l);
    var front := proof[..|proof| - 1];
    if i < k {
      SameTurnsSameFold(h, node, i, k, j, l, front);
    } else {
      SameTurnsSameFold(h, node, i - k, n - k, j - l, m - l, front);
    }
    FoldedHalves(h, node, i, n, proof, k);
  }

  /** Leaf `i` of the ledger stands, under the same turns, where the head's tree has leaf `j`. */
  predicate StandsFor<D(==)>(leaves: seq<D>, m: nat, i: nat, j: nat)
    requires m <= |leaves|
  {
    i < |leaves| && j < m && leaves[i] == leaves[j] && SameTurns(i, |leaves|, j, m)
  }

  /** Leaf `i` with the path of some leaf of the head's tree that it stands for. */
  ghost predicate IsHeadPath<D>(h: (D, D) -> D, leaves: seq<D>, m: nat, i: nat, path: seq<D>)
    requires m <= |leaves|
  {
    exists j: nat :: StandsFor(leaves, m, i, j) && path == Path(h, j, leaves[..m])
  }

  lemma {:induction false} HeadPathFolds<D(!new)>(h: (D, D) -> D, leaves: seq<D>, m: nat, i: nat, j: nat)
    requires 0 < m <= |leaves| && StandsFor(leaves, m, i, j)
    ensures InclusionRoot(h, i, |leaves|, leaves[i], Path(h, j, leaves[..m])) == Some(Mth(h, leaves[..m]))
  {
    hide Fold, ProofLength, Folded, Depth, Mth, SameTurns, Path;
    var head, n := leaves[..m], |leaves|;
    var path := Path(h, j, head);
    PathFolds(h, j, head);
    FoldIsFolded(h, leaves[i], j, m, path);
    SameTurnsSameFold(h, leaves[i], i, n, j, m, path);
    DepthIsLength(i, n);
    FoldIsFolded(h, leaves[i], i, n, path);
  }

  lemma {:induction false} FoldIsHeadPath<D(!new)>(h: (D, D) -> D, leaves: seq<D>, m: nat, i: nat, path: seq<D>)
    requires Injective(h) && Separated(h, leaves) && 0 < m <= |leaves| && i < |leaves|
    requires InclusionRoot(h, i, |leaves|, leaves[i], path) == Some(Mth(h, leaves[..m]))
    ensures IsHeadPath(h, leaves, m, i, path)
  {
    hide Fold, ProofLength, Folded, Depth, Mth, SameTurns, Path;
    var head, n, node := leaves[..m], |leaves|, leaves[i];
    FoldIsFolded(h, node, i, n, path);
    var j := FoldMeetsLeaf(h, node, i, n, path, head);
    DepthOfSameTurns(i, n, j, m);
    SameTurnsSameFold(h, node, i, n, j, m, path);
    DepthIsLength(j, m);
    FoldIsFolded(h, node, j, m, path);
    InclusionExact(h, j, head, node, path);
    assert StandsFor(leaves, m, i, j);
  }

  lemma {:induction false} DepthOfSameTurns(i: nat, n: nat, j: nat, m: nat)
    requires i < n && j < m && SameTurns(i, n, j, m)
    ensures Depth(i, n) == Depth(j, m)
  {
    SameTurnsSameFold((a, b) => a, 0, i, n, j, m, seq(Depth(j, m), k => 0));
  }

  /** What acceptance of one record against a head of `m` leaves means. */
  ghost predicate IsHeadRecord<D>(h: (D, D) -> D, leaves: seq<D>, m: nat, record: Option<Inclusion<D>>)
    requires m <= |leaves|
  {
    && record.Some?
    && var r := record.value;
       && r.treeSize == |leaves| && r.leafIndex < |leaves| && r.leafHash == leaves[r.leafIndex]
       && IsHeadPath(h, leaves, m, r.leafIndex, r.path)
  }

  /** Against a head of any size exactly the leaves with a path of the head's tree they stand for are accepted. */
  lemma {:induction false} RecordsExactly<D(!new)>(h: (D, D) -> D, leaves: seq<D>, m: nat, record: Option<Inclusion<D>>)
    requires Injective(h) && Separated(h, leaves) && 0 < m <= |leaves|
    ensures InclusionFailure(h, leaves, Mth(h, leaves[..m]), record).None? <==> IsHeadRecord(h, leaves, m, record)
  {
    hide InclusionRoot, Mth, Path, Separated, SameTurns;
    var root := Mth(h, leaves[..m]);
    if record.Some? && record.value.treeSize == |leaves| && record.value.leafIndex < |leaves|
       && record.value.leafHash == leaves[record.value.leafIndex] {
      var r := record.value;
      if InclusionRoot(h, r.leafIndex, r.treeSize, r.leafHash, r.path) == Some(root) {
        FoldIsHeadPath(h, leaves, m, r.leafIndex, r.path);
      }
      if IsHeadPath(h, leaves, m, r.leafIndex, r.path) {
        var j: nat :| StandsFor(leaves, m, r.leafIndex, j) && r.path == Path(h, j, leaves[..m]);
        HeadPathFolds(h, leaves, m, r.leafIndex, j);
      }
    }
  }

  // ----- The exact condition -----

  /** No leaf of the ledger stands where the head's tree has an equal one. */
  ghost predicate NoneStands<D>(leaves: seq<D>, m: nat)
    requires m <= |leaves|
  {
    forall i: nat, j: nat :: !StandsFor(leaves, m, i, j)
  }

  /**
   * All inclusion records accepted against a head of `m` leaves are audit paths of the whole ledger exactly when the
   * head covers the ledger or no leaf stands where the head's tree has an equal one; then no record is accepted.
   */
  lemma {:induction false} ConclusiveExactly<D(!new)>(h: (D, D) -> D, leaves: seq<D>, m: nat)
    requires Injective(h) && Separated(h, leaves) && 0 < m <= |leaves| <= HALF_RANGE
    ensures (forall record :: InclusionFailure(h, leaves, Mth(h, leaves[..m]), record).None? ==>
                                IsAuditPath(h, leaves, record))
            <==> m == |leaves| || NoneStands(leaves, m)
  {
    hide InclusionFailure, Mth, Path, Separated, SameTurns, IsAuditPath;
    var root := Mth(h, leaves[..m]);
    if m == |leaves| || NoneStands(leaves, m) {
      forall record
        ensures InclusionFailure(h, leaves, root, record).None? ==> IsAuditPath(h, leaves, record)
      {
        RecordsExactly(h, leaves, m, record);
        if m == |leaves| {
          CoveredRecord(h, leaves, record);
        }
      }
    } else {
      var i: nat, j: nat :| StandsFor(leaves, m, i, j);
      StandingIsAccepted(h, leaves, m, i, j);
      var record := Some(Inclusion(|leaves|, i, leaves[i], Path(h, j, leaves[..m])));
      assert InclusionFailure(h, leaves, root, record).None? && !IsAuditPath(h, leaves, record);
    }
  }

  lemma {:induction false} CoveredRecord<D(!new)>(h: (D, D) -> D, leaves: seq<D>, record: Option<Inclusion<D>>)
    requires Injective(h) && leaves != []
    ensures InclusionFailure(h, leaves, Mth(h, leaves[..|leaves|]), record).None? <==> IsAuditPath(h, leaves, record)
  {
    hide InclusionRoot, Mth, Path;
    assert leaves[..|leaves|] == leaves;
    if record.Some? && record.value.leafIndex < |leaves| {
      var r := record.value;
      InclusionExact(h, r.leafIndex, leaves, r.leafHash, r.path);
    }
  }

  /** Such a leaf, with the path it has in the head's tree, is accepted although its path in the ledger's is another. */
  lemma {:induction false} StandingIsAccepted<D(!new)>(h: (D, D) -> D, leaves: seq<D>, m: nat, i: nat, j: nat)
    requires Injective(h) && Separated(h, leaves) && 0 < m < |leaves| <= HALF_RANGE && StandsFor(leaves, m, i, j)
    ensures var record := Some(Inclusion(|leaves|, i, leaves[i], Path(h, j, leaves[..m])));
            && InclusionFailure(h, leaves, Mth(h, leaves[..m]), record).None?
            && !IsAuditPath(h, leaves, record)
  {
    hide InclusionRoot, Mth, Path, Separated;
    HeadPathFolds(h, leaves, m, i, j);
    InclusionComplete(h, i, leaves);
    SeparatedPrefix(h, leaves, m);
    if Mth(h, leaves[..m]) == Mth(h, leaves) {
      RootBindsSize(h, leaves[..m], leaves);
    }
  }

  lemma SeparatedPrefix<D(!new)>(h: (D, D) -> D, leaves: seq<D>, m: nat)
    requires Separated(h, leaves) && m <= |leaves|
    ensures Separated(h, leaves[..m])
  {
  }

  /** For distinct leaves and a shorter head this says that the head's tree needs fewer bits. */
  lemma {:induction false} DistinctExactly<D>(leaves: seq<D>, m: nat)
    requires Distinct(leaves) && 0 < m <= |leaves|
    ensures NoneStands(leaves, m) <==> BitLength(m - 1) < BitLength(|leaves| - 1)
  {
    hide BitLength, SameTurns;
    BitLengthMonotone(m - 1, |leaves| - 1);
    if BitLength(m - 1) < BitLength(|leaves| - 1) {
      forall i: nat, j: nat
        ensures !StandsFor(leaves, m, i, j)
      {
        if StandsFor(leaves, m, i, j) {
          assert i == j;
          SameTurnsSameBits(i, |leaves|, m);
        }
      }
    } else {
      FirstTurns(|leaves|, m);
      assert StandsFor(leaves, m, 0, 0);
    }
  }

  // ----- Whole exports -----

  /** The size of the last checkpoint. */
  function HeadSize<D>(e: Export<D>): nat {
    if e.checkpoints == [] then 0 else e.checkpoints[|e.checkpoints| - 1].treeSize
  }

  /**
   * An export, whatever its last checkpoint covers, is accepted exactly when its checkpoints form one chain of true
   * roots up to the promised head, its inclusion records are paths of the head's tree, and its consistency records are
   * the consistency proofs of its own leaves.
   */
  lemma {:induction false} AcceptedExactly<D(!new)>(h: (D, D) -> D, zero: D, e: Export<D>)
    requires Injective(h) && Separated(h, e.leaves)
    ensures ExportFailures(h, zero, e) == Some([])
            <==> && e.checkpoints != []
                 && (forall k :: 0 <= k < |e.checkpoints| ==> CheckpointSound(h, e.leaves, e.checkpoints, k))
                 && e.checkpoints[|e.checkpoints| - 1].digest == e.headDigest
                 && HeadSize(e) <= |e.leaves|
                 && (forall k :: 0 <= k < |e.inclusions| ==> IsHeadRecord(h, e.leaves, HeadSize(e), e.inclusions[k]))
                 && (forall k :: 0 <= k < |e.consistencies| ==> IsConsistencyProof(h, e.leaves, e.consistencies[k]))
  {
    hide ChainAfter, Inclusions, Consistencies, Mth, IsHeadRecord, IsConsistencyProof, InclusionFailure, Separated;
    CheckpointsExactly(h, e.leaves, e.checkpoints, |e.checkpoints|);
    ConsistenciesExactly(h, e.leaves, e.consistencies);
    if e.checkpoints != [] && forall k :: 0 <= k < |e.checkpoints| ==> CheckpointSound(h, e.leaves, e.checkpoints, k) {
      var m := HeadSize(e);
      assert CheckpointSound(h, e.leaves, e.checkpoints, |e.checkpoints| - 1);
      InclusionsSilent(h, e.leaves, Mth(h, e.leaves[..m]), e.inclusions, |e.inclusions|);
      forall k | 0 <= k < |e.inclusions|
        ensures InclusionFailure(h, e.leaves, Mth(h, e.leaves[..m]), e.inclusions[k]).None?
                <==> IsHeadRecord(h, e.leaves, m, e.inclusions[k])
      {
        RecordsExactly(h, e.leaves, m, e.inclusions[k]);
      }
    }
  }
}
