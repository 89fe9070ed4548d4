/** The ledger's Merkle tree: the level-pairing root and the recursive tree of RFC 6962 it implements. */
module MerkleTree {
  import opened Bits

  /** The node hash never maps two different pairs to one digest. */
  ghost predicate Injective<D(!new)>(h: (D, D) -> D) {
    forall a, b, c, d :: h(a, b) == h(c, d) ==> a == c && b == d
  }

  /** The largest power of two below `n` (RFC 6962, section 2.1). */
  function Split(n: nat): (k: nat)
    requires n > 1
    ensures 0 < k < n <= 2 * k
    ensures IsPow2(k)
  {
    if n == 2 then 1 else 2 * Split((n + 1) / 2)
  }

  /** The leaves below the left child of the root. */
  function Left<D>(leaves: seq<D>): (left: seq<D>)
    requires |leaves| > 1
    ensures 0 < |left| < |leaves|
  {
    leaves[..Split(|leaves|)]
  }

  function Right<D>(leaves: seq<D>): (right: seq<D>)
    requires |leaves| > 1
    ensures 0 < |right| < |leaves|
  {
    leaves[Split(|leaves|)..]
  }

  /** The Merkle tree hash of a non-empty list of leaf hashes (RFC 6962, section 2.1). */
  function Mth<D>(h: (D, D) -> D, leaves: seq<D>): D
    requires |leaves| > 0
  {
    if |leaves| == 1 then leaves[0] else h(Mth(h, Left(leaves)), Mth(h, Right(leaves)))
  }

  /** One round of pairing: neighbours are hashed together, an unpaired last node moves up unchanged. */
  function PairLevel<D>(h: (D, D) -> D, level: seq<D>): (next: seq<D>)
    ensures level != [] ==> next != []
    ensures |level| > 1 ==> |next| < |level|
  {
    if |level| < 2 then level else [h(level[0], level[1])] + PairLevel(h, level[2..])
  }

  lemma {:induction false} PairLevelSize<D>(h: (D, D) -> D, level: seq<D>)
    ensures |PairLevel(h, level)| == (|level| + 1) / 2
  {
    if |level| >= 2 {
      PairLevelSize(h, level[2..]);
    }
  }

  lemma {:induction false} PairLevelAt<D>(h: (D, D) -> D, level: seq<D>, j: nat)
    requires 2 * j < |level|
    ensures j < |PairLevel(h, level)|
    ensures PairLevel(h, level)[j] == if 2 * j + 1 == |level| then level[2 * j] else h(level[2 * j], level[2 * j + 1])
  {
    if |level| >= 2 && j > 0 {
      PairLevelAt(h, level[2..], j - 1);
    }
  }

  /** Pairing commutes with joining two lists, the first of even length. */
  lemma {:induction false} PairLevelJoin<D>(h: (D, D) -> D, front: seq<D>, back: seq<D>)
    requires |front| % 2 == 0
    ensures PairLevel(h, front + back) == PairLevel(h, front) + PairLevel(h, back)
  {
    if front == [] {
      assert front + back == back;
    } else {
      PairLevelJoin(h, front[2..], back);
      assert (front + back)[2..] == front[2..] + back;
    }
  }

  /** So it commutes with cutting at an even position. */
  lemma PairLevelCut<D>(h: (D, D) -> D, level: seq<D>, k: nat, half: nat)
    requires k <= |level| && k == 2 * half
    ensures half <= |PairLevel(h, level)|
    ensures PairLevel(h, level)[..half] == PairLevel(h, level[..k])
    ensures PairLevel(h, level)[half..] == PairLevel(h, level[k..])
  {
    var front, back := level[..k], level[k..];
    PairLevelJoin(h, front, back);
    assert level == front + back;
    PairLevelSize(h, front);
    assert |PairLevel(h, front)| == half;
  }

  /** And it commutes with descending into either half of the tree. */
  lemma {:induction false} PairLevelHalves<D>(h: (D, D) -> D, level: seq<D>)
    requires |level| > 2
    ensures |PairLevel(h, level)| > 1 && Split(|level|) == 2 * Split(|PairLevel(h, level)|)
    ensures Left(PairLevel(h, level)) == PairLevel(h, Left(level))
    ensures Right(PairLevel(h, level)) == PairLevel(h, Right(level))
  {
    hide PairLevel, IsPow2;
    PairLevelSize(h, level);
    PairLevelCut(h, level, Split(|level|), Split(|level|) / 2);
  }

  /** Pairing a level does not change the tree hash. */
  lemma {:induction false} PairLevelKeepsMth<D>(h: (D, D) -> D, level: seq<D>)
    requires |level| > 0
    ensures Mth(h, PairLevel(h, level)) == Mth(h, level)
    decreases |level|
  {
    if |level| == 2 {
      assert PairLevel(h, level) == [h(level[0], level[1])];
    } else if |level| > 2 {
      PairLevelHalves(h, level);
      PairLevelKeepsMth(h, Left(level));
      PairLevelKeepsMth(h, Right(level));
    }
  }

  lemma PairLevelFrom<D>(h: (D, D) -> D, level: seq<D>, index: nat)
    requires index < |level|
    ensures PairLevel(h, level[index..])
            == if index + 1 == |level| then [level[index]]
               else [h(level[index], level[index + 1])] + PairLevel(h, level[index + 2..])
  {
  }

  /** The inner loop of the root computation: builds the next level two nodes at a time. */
  method PairUp<D>(h: (D, D) -> D, level: seq<D>) returns (next: seq<D>)
    ensures next == PairLevel(h, level)
  {
    assert PairLevel(h, []) == [] && level[0..] == level;
    hide PairLevel;
    next := [];
    var index := 0;
    while index < |level|
      invariant PairLevel(h, level) == next + if index <= |level| then PairLevel(h, level[index..]) else []
    {
      PairLevelFrom(h, level, index);
      if index + 1 == |level| {
        next := next + [level[index]];
      } else {
        next := next + [h(level[index], level[index + 1])];
      }
      index := index + 2;
    }
  }

  /** The bottom-up root computation; `zero` stands for the empty tree. */
  method MerkleRoot<D>(h: (D, D) -> D, zero: D, leaves: seq<D>) returns (root: D)
    ensures root == if |leaves| == 0 then zero else Mth(h, leaves)
  {
    if |leaves| == 0 {
      return zero;
    }
    if |leaves| == 1 {
      return leaves[0];
    }
    var level := leaves;
    while |level| > 1
      invariant |level| > 0
      invariant Mth(h, level) == Mth(h, leaves)
    {
      PairLevelKeepsMth(h, level);
      level := PairUp(h, level);
    }
    root := level[0];
  }

  /** With an injective node hash, lists of one length and one root are one list. */
  lemma {:induction false} RootBindsLeaves<D(!new)>(h: (D, D) -> D, a: seq<D>, b: seq<D>)
    requires Injective(h)
    requires |a| == |b| > 0
    requires Mth(h, a) == Mth(h, b)
    ensures a == b
    decreases |a|
  {
    if |a| > 1 {
      RootBindsLeaves(h, Left(a), Left(b));
      RootBindsLeaves(h, Right(a), Right(b));
      assert a == Left(a) + Right(a) && b == Left(b) + Right(b);
    } else {
      assert a == [a[0]] && b == [b[0]];
    }
  }
}
