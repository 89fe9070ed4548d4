/** The leaf and node hashes of the ledger's tree: digests under two tags. */
module TreeHashes {
  import opened Bytes
  import opened CborHead
  import opened HeadCoverage
  import opened MerkleTree
  import opened Preimages

  ghost predicate CollisionFree<D(!new)>(digest: Bytes -> D) {
    forall x, y :: digest(x) == digest(y) ==> x == y
  }

  /**
   * Two digests written one after the other are told apart. The code writes digests as their 32 bytes; the model leaves
   * the width open, as no digest of a fixed width is free of collisions.
   */
  ghost predicate JoinsApart<D(!new)>(write: D -> Bytes) {
    forall a, b, c, d :: write(a) + write(b) == write(c) + write(d) ==> a == c && b == d
  }

  lemma FixedWidthJoinsApart<D(!new)>(write: D -> Bytes, width: nat)
    requires forall a :: |write(a)| == width
    requires forall a, b :: write(a) == write(b) ==> a == b
    ensures JoinsApart(write)
  {
    forall a, b, c, d | write(a) + write(b) == write(c) + write(d)
      ensures a == c && b == d
    {
      assert (write(a) + write(b))[..width] == write(a) && (write(c) + write(d))[..width] == write(c);
      assert (write(a) + write(b))[width..] == write(b) && (write(c) + write(d))[width..] == write(d);
    }
  }

  function LeafTag(): Bytes {
    Ascii("trellis-merkle-leaf-v1")
  }

  function NodeTag(): Bytes {
    Ascii("trellis-merkle-interior-v1")
  }

  function LeafHash<D>(digest: Bytes -> D, hash: Bytes): D {
    digest(DomainPreimage(LeafTag(), hash))
  }

  function NodeHash<D>(digest: Bytes -> D, write: D -> Bytes): (D, D) -> D {
    (left, right) => digest(DomainPreimage(NodeTag(), write(left) + write(right)))
  }

  /** The leaves of a ledger, from the hashes of its events. */
  function Leaves<D>(digest: Bytes -> D, hashes: seq<Bytes>): (leaves: seq<D>)
    ensures |leaves| == |hashes|
  {
    seq(|hashes|, i requires 0 <= i < |hashes| => LeafHash(digest, hashes[i]))
  }

  lemma {:induction false} TagsDoNotMeet()
    ensures !Meet(LeafTag(), NodeTag())
  {
    hide Ascii, Meet;
    TagsMeetExactly(LeafTag(), NodeTag());
  }

  /** What the statements about trees assume of the node hash and of the leaves holds of the code's own. */
  lemma {:induction false} TagsSeparate<D(!new)>(digest: Bytes -> D, write: D -> Bytes, hashes: seq<Bytes>)
    requires CollisionFree(digest) && JoinsApart(write)
    ensures Injective(NodeHash(digest, write)) && Separated(NodeHash(digest, write), Leaves(digest, hashes))
  {
    hide DomainPreimage, LeafTag, NodeTag;
    forall a, b, c, d | NodeHash(digest, write)(a, b) == NodeHash(digest, write)(c, d)
      ensures a == c && b == d
    {
      SameTagBinds(NodeTag(), write(a) + write(b), write(c) + write(d));
    }
    TagsDoNotMeet();
    forall k, a, b | 0 <= k < |hashes|
      ensures Leaves(digest, hashes)[k] != NodeHash(digest, write)(a, b)
    {
      assert DomainPreimage(LeafTag(), hashes[k]) != DomainPreimage(NodeTag(), write(a) + write(b));
    }
  }

  /** One root, one list of event hashes: neither their number nor their order can change below it. */
  lemma {:induction false} RootBindsHashes<D(!new)>(digest: Bytes -> D, write: D -> Bytes, a: seq<Bytes>, b: seq<Bytes>)
    requires CollisionFree(digest) && JoinsApart(write) && a != [] && b != []
    ensures Mth(NodeHash(digest, write), Leaves(digest, a)) == Mth(NodeHash(digest, write), Leaves(digest, b))
            <==> a == b
  {
    var h, x, y := NodeHash(digest, write), Leaves(digest, a), Leaves(digest, b);
    hide DomainPreimage, LeafTag, NodeTag, NodeHash, Mth, Separated, Injective;
    if Mth(h, x) == Mth(h, y) {
      TagsSeparate(digest, write, a);
      TagsSeparate(digest, write, b);
      RootBindsSize(h, x, y);
      RootBindsLeaves(h, x, y);
      forall k | 0 <= k < |a|
        ensures a[k] == b[k]
      {
        assert x[k] == LeafHash(digest, a[k]) && y[k] == LeafHash(digest, b[k]);
        SameTagBinds(LeafTag(), a[k], b[k]);
      }
    }
  }
}
