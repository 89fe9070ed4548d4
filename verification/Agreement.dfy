/** What equal event hashes and equal roots say about two ledgers, if no two inputs share a digest. */
module Agreement {
  import opened Bytes
  import opened EventSet
  import opened LedgerProperties
  import opened MerkleTree
  import opened Preimages
  import opened TreeHashes
  import opened Wrappers

  /** The settings hash and decode alike; keys, scopes and declarations may differ. */
  ghost predicate SameFormat(s: Setting, t: Setting) {
    s.sha256 == t.sha256 && s.tag == t.tag && s.decode == t.decode
  }

  /** Every event is checked against its predecessor and nothing was reported. */
  predicate Verified(s: Setting, events: seq<Event>) {
    Silent(StateAfter(s, events, |events|)) && !(s.initialDeclaration.Some? && |events| == 1)
  }

  lemma {:induction false} HashBindsPayload(s: Setting, t: Setting, x: Event, y: Event)
    requires SameFormat(s, t) && CollisionFree(s.sha256)
    requires Decodes(s, x) && Decodes(t, y)
    ensures HashOf(s, x) == HashOf(t, y) <==> x.payload == y.payload
  {
    hide DomainPreimage, CanonicalPreimage;
    var scope, scope' := FieldsOf(s, x).scope, FieldsOf(t, y).scope;
    var tag, inner, inner' :=
      s.tag(EventDomain), CanonicalPreimage(scope, x.payload.value), CanonicalPreimage(scope', y.payload.value);
    if HashOf(s, x) == HashOf(t, y) {
      assert s.sha256(DomainPreimage(tag, inner)) == s.sha256(DomainPreimage(tag, inner'));
      SameTagBinds(tag, inner, inner');
      CanonicalPreimageInjective(scope, x.payload.value, scope', y.payload.value);
    }
  }

  predicate NamesAny(s: Setting, event: Event) {
    Decodes(s, event) && FieldsOf(s, event).prevHash.Some?
  }

  /** An event of a verified ledger that names any event names the one before it. */
  lemma {:induction false} NamedIsPredecessor(s: Setting, events: seq<Event>, i: nat)
    requires Verified(s, events) && i < |events| && NamesAny(s, events[i])
    ensures i > 0 && Decodes(s, events[i - 1]) && FieldsOf(s, events[i]).prevHash == Some(HashOf(s, events[i - 1]))
  {
    hide LocallySound, NotBackwards, Idempotent, Joins, StateAfter;
    SilentIsSound(s, events, i);
    if i > 0 {
      SilentIsSound(s, events, i - 1);
    }
  }

  ghost predicate SameAt(s: Setting, a: seq<Event>, i: int, t: Setting, b: seq<Event>, j: int) {
    && 0 <= i < |a| && 0 <= j < |b| && Decodes(s, a[i]) && Decodes(t, b[j])
    && a[i].payload == b[j].payload && HashOf(s, a[i]) == HashOf(t, b[j])
  }

  lemma {:induction false} AgreeOneBack(s: Setting, a: seq<Event>, i: nat, t: Setting, b: seq<Event>, j: nat)
    requires SameFormat(s, t) && CollisionFree(s.sha256)
    requires Verified(s, a) && Verified(t, b)
    requires SameAt(s, a, i, t, b, j) && NamesAny(s, a[i])
    ensures SameAt(s, a, i - 1, t, b, j - 1)
  {
    hide HashOf, StateAfter, Silent, EventSound;
    assert FieldsOf(s, a[i]) == FieldsOf(t, b[j]);
    NamedIsPredecessor(s, a, i);
    NamedIsPredecessor(t, b, j);
    HashBindsPayload(s, t, a[i - 1], b[j - 1]);
  }

  /**
   * From two events with the same hash, the payloads agree step by step, as far back as the events in between name a
   * predecessor.
   */
  lemma {:induction false} AgreeBackwards(s: Setting, a: seq<Event>, i: nat, t: Setting, b: seq<Event>, j: nat, d: nat)
    requires SameFormat(s, t) && CollisionFree(s.sha256)
    requires Verified(s, a) && Verified(t, b)
    requires i < |a| && j < |b| && Decodes(s, a[i]) && Decodes(t, b[j]) && HashOf(s, a[i]) == HashOf(t, b[j])
    requires d <= i && forall k :: i - d < k <= i ==> NamesAny(s, a[k])
    ensures SameAt(s, a, i - d, t, b, j - d)
    decreases d
  {
    hide SameFormat, Verified, HashOf, Decodes, NamesAny;
    if d == 0 {
      HashBindsPayload(s, t, a[i], b[j]);
    } else {
      AgreeBackwards(s, a, i, t, b, j, d - 1);
      AgreeOneBack(s, a, i - (d - 1), t, b, j - (d - 1));
    }
  }

  ghost predicate OneChain(s: Setting, events: seq<Event>) {
    forall k :: 0 < k < |events| ==> NamesAny(s, events[k])
  }

  /** Two verified ledgers of one chain each that end in the same hash hold the same payloads. */
  lemma {:induction false} SameHeadSameLedger(s: Setting, a: seq<Event>, t: Setting, b: seq<Event>)
    requires SameFormat(s, t) && CollisionFree(s.sha256)
    requires Verified(s, a) && Verified(t, b) && OneChain(s, a) && OneChain(t, b)
    requires a != [] && b != [] && Decodes(s, a[|a| - 1]) && Decodes(t, b[|b| - 1])
    requires HashOf(s, a[|a| - 1]) == HashOf(t, b[|b| - 1])
    ensures |a| == |b|
    ensures forall k :: 0 <= k < |a| ==> a[k].payload == b[k].payload
  {
    hide HashOf, NamesAny, SameFormat, Verified;
    AgreeBackwards(s, a, |a| - 1, t, b, |b| - 1, |a| - 1);
    AgreeBackwards(t, b, |b| - 1, s, a, |a| - 1, |b| - 1) by {
      SameFormatSymmetric(s, t);
    }
    forall k | 0 <= k < |a|
      ensures a[k].payload == b[k].payload
    {
      AgreeBackwards(s, a, |a| - 1, t, b, |b| - 1, |a| - 1 - k);
    }
  }

  /** A verified ledger of one chain never repeats a hash. */
  lemma {:induction false} ChainHashesAreDistinct(s: Setting, events: seq<Event>, i: nat, j: nat)
    requires CollisionFree(s.sha256)
    requires Verified(s, events) && OneChain(s, events) && i < j < |events|
    requires Decodes(s, events[i]) && Decodes(s, events[j])
    ensures HashOf(s, events[i]) != HashOf(s, events[j])
  {
    hide HashOf, NamesAny, Verified, Decodes;
    if HashOf(s, events[i]) == HashOf(s, events[j]) {
      AgreeBackwards(s, events, j, s, events, i, j);
    }
  }

  /** So the leaves of its tree are distinct. */
  lemma {:induction false} ChainLeavesAreDistinct(s: Setting, events: seq<Event>, i: nat, j: nat)
    requires CollisionFree(s.sha256)
    requires Verified(s, events) && OneChain(s, events) && i < j < |events|
    requires Decodes(s, events[i]) && Decodes(s, events[j])
    ensures LeafHash(s.sha256, HashOf(s, events[i])) != LeafHash(s.sha256, HashOf(s, events[j]))
  {
    hide HashOf, NamesAny, Verified, Decodes, DomainPreimage, OneChain, LeafTag;
    ChainHashesAreDistinct(s, events, i, j);
    SameTagBinds(LeafTag(), HashOf(s, events[i]), HashOf(s, events[j]));
  }

  lemma SameFormatSymmetric(s: Setting, t: Setting)
    requires SameFormat(s, t)
    ensures SameFormat(t, s)
  {
  }

  // ----- One root -----

  function Hashes(s: Setting, events: seq<Event>): (hashes: seq<Bytes>)
    requires forall k :: 0 <= k < |events| ==> Decodes(s, events[k])
    ensures |hashes| == |events|
  {
    seq(|events|, k requires 0 <= k < |events| => HashOf(s, events[k]))
  }

  /** The root of the tree over the events of a ledger. */
  function RootOf(s: Setting, write: Hash -> Bytes, events: seq<Event>): Hash
    requires events != [] && forall k :: 0 <= k < |events| ==> Decodes(s, events[k])
  {
    Mth(NodeHash(s.sha256, write), Leaves(s.sha256, Hashes(s, events)))
  }

  /** Two ledgers, verified or not, have one root exactly if they hold the same payloads in the same order. */
  lemma {:induction false} SameRootSameLedger(s: Setting, a: seq<Event>, t: Setting, b: seq<Event>,
                                              write: Hash -> Bytes)
    requires SameFormat(s, t) && CollisionFree(s.sha256) && JoinsApart(write) && a != [] && b != []
    requires forall k :: 0 <= k < |a| ==> Decodes(s, a[k])
    requires forall k :: 0 <= k < |b| ==> Decodes(t, b[k])
    ensures RootOf(s, write, a) == RootOf(t, write, b)
            <==> |a| == |b| && forall k :: 0 <= k < |a| ==> a[k].payload == b[k].payload
  {
    hide HashOf, Decodes, NodeHash, Leaves, Mth, CollisionFree, JoinsApart;
    var x, y := Hashes(s, a), Hashes(t, b);
    RootBindsHashes(s.sha256, write, x, y);
    if |a| == |b| {
      forall k | 0 <= k < |a|
        ensures x[k] == y[k] <==> a[k].payload == b[k].payload
      {
        HashBindsPayload(s, t, a[k], b[k]);
      }
    }
  }
}
