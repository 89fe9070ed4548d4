/** The checkpoints of an export and the inclusion and consistency proofs checked against them. */
module ExportProofs {
  import opened Bits
  import opened Bytes
  import opened MerkleProofs
  import opened MerkleTree
  import opened Wrappers

  /** A decoded checkpoint; the link to its predecessor may be unreadable. */
  datatype Checkpoint<D> = Checkpoint(inScope: bool, treeSize: u64, treeHead: D, prev: Option<D>, digest: D)

  datatype Inclusion<D> = Inclusion(treeSize: u64, leafIndex: u64, leafHash: D, path: seq<D>)

  /** Unreadable sizes are zero. */
  datatype Consistency<D> = Consistency(fromSize: u64, toSize: u64, path: Option<seq<D>>)

  datatype Failure =
    | ScopeMismatch
    | TreeSizeInvalid
    | RootMismatch
    | PrevHashMismatch
    | HeadDigestMismatch
    | InclusionInvalid
    | InclusionMismatch
    | ConsistencyInvalid
    | ConsistencyMismatch

  datatype Chain<D> = Chain(failures: seq<Failure>, prior: Option<D>, headRoot: Option<D>)

  /** The part of a checkpoint check that follows once scope and size are right; an unreadable link is fatal. */
  function Follow<D(==)>(h: (D, D) -> D, leaves: seq<D>, c: Checkpoint<D>, chain: Chain<D>): Option<Chain<D>>
    requires 0 < c.treeSize <= |leaves|
  {
    var rooted :=
      if Mth(h, leaves[..c.treeSize]) != c.treeHead then chain.failures + [RootMismatch] else chain.failures;
    if chain.prior.Some? && c.prev.None? then None
    else
      var linked := if chain.prior.Some? && chain.prior != c.prev then rooted + [PrevHashMismatch] else rooted;
      Some(Chain(linked, Some(c.digest), Some(c.treeHead)))
  }

  function CheckpointStep<D(==)>(h: (D, D) -> D, leaves: seq<D>, c: Checkpoint<D>, chain: Chain<D>): Option<Chain<D>> {
    if !c.inScope then Some(chain.(failures := chain.failures + [ScopeMismatch]))
    else if c.treeSize == 0 || c.treeSize > |leaves| then Some(chain.(failures := chain.failures + [TreeSizeInvalid]))
    else Follow(h, leaves, c, chain)
  }

  function ChainAfter<D(==)>(h: (D, D) -> D, leaves: seq<D>, checkpoints: seq<Checkpoint<D>>, i: nat): Option<Chain<D>>
    requires i <= |checkpoints|
  {
    if i == 0 then Some(Chain([], None, None))
    else
      match ChainAfter(h, leaves, checkpoints, i - 1)
      case None => None
      case Some(chain) => CheckpointStep(h, leaves, checkpoints[i - 1], chain)
  }

  lemma {:induction false} FatalStays<D>(h: (D, D) -> D, leaves: seq<D>, checkpoints: seq<Checkpoint<D>>, i: nat,
                                         n: nat)
    requires i <= n <= |checkpoints| && ChainAfter(h, leaves, checkpoints, i).None?
    ensures ChainAfter(h, leaves, checkpoints, n).None?
    decreases n
  {
    if i < n {
      FatalStays(h, leaves, checkpoints, i, n - 1);
    }
  }

  /** The failure of one inclusion record, if any; unreadable records are invalid. */
  function InclusionFailure<D(==)>(h: (D, D) -> D, leaves: seq<D>, root: D, record: Option<Inclusion<D>>)
    : Option<Failure>
  {
    if record.None? || record.value.treeSize != |leaves| || record.value.leafIndex >= |leaves| then
      Some(InclusionInvalid)
    else
      var r := record.value;
      if r.leafHash != leaves[r.leafIndex]
         || InclusionRoot(h, r.leafIndex, r.treeSize, r.leafHash, r.path) != Some(root)
        then Some(InclusionMismatch)
      else None
  }

  function ConsistencyFailure<D(==)>(h: (D, D) -> D, leaves: seq<D>, r: Consistency<D>): Option<Failure> {
    if r.path.None? || r.fromSize == 0 || r.fromSize >= r.toSize || r.toSize > |leaves| then Some(ConsistencyInvalid)
    else
      match ConsistencyRoot(h, r.fromSize, r.toSize, Mth(h, leaves[..r.fromSize]), r.path.value)
      case None => Some(ConsistencyInvalid)
      case Some(root) => if root != Mth(h, leaves[..r.toSize]) then Some(ConsistencyMismatch) else None
  }

  function Note(failures: seq<Failure>, failure: Option<Failure>): seq<Failure> {
    match failure
    case None => failures
    case Some(f) => failures + [f]
  }

  function Inclusions<D(==)>(h: (D, D) -> D, leaves: seq<D>, root: D, records: seq<Option<Inclusion<D>>>, i: nat)
    : seq<Failure>
    requires i <= |records|
  {
    if i == 0 then []
    else Note(Inclusions(h, leaves, root, records, i - 1), InclusionFailure(h, leaves, root, records[i - 1]))
  }

  function Consistencies<D(==)>(h: (D, D) -> D, leaves: seq<D>, records: seq<Consistency<D>>, i: nat): seq<Failure>
    requires i <= |records|
  {
    if i == 0 then []
    else Note(Consistencies(h, leaves, records, i - 1), ConsistencyFailure(h, leaves, records[i - 1]))
  }

  method VerifyCheckpoints<D(==)>(h: (D, D) -> D, zero: D, leaves: seq<D>, checkpoints: seq<Checkpoint<D>>)
    returns (r: Option<Chain<D>>)
    ensures r == ChainAfter(h, leaves, checkpoints, |checkpoints|)
  {
    var failures: seq<Failure>, prior: Option<D>, headRoot: Option<D> := [], None, None;
    for i := 0 to |checkpoints|
      invariant ChainAfter(h, leaves, checkpoints, i) == Some(Chain(failures, prior, headRoot))
    {
      var c := checkpoints[i];
      if !c.inScope {
        failures := failures + [ScopeMismatch];
        continue;
      }
      if c.treeSize == 0 || c.treeSize > |leaves| {
        failures := failures + [TreeSizeInvalid];
        continue;
      }
      var expected := MerkleRoot(h, zero, leaves[..c.treeSize]);
      if expected != c.treeHead {
        failures := failures + [RootMismatch];
      }
      if prior.Some? {
        if c.prev.None? {
          FatalStays(h, leaves, checkpoints, i + 1, |checkpoints|);
          return None;
        }
        if prior.value != c.prev.value {
          failures := failures + [PrevHashMismatch];
        }
      }
      prior, headRoot := Some(c.digest), Some(c.treeHead);
    }
    return Some(Chain(failures, prior, headRoot));
  }

  /** The roots of proofs whose tree has more than half the range of leaves are not computed. */
  method VerifyInclusions<D(==)>(h: (D, D) -> D, leaves: seq<D>, root: D, records: seq<Option<Inclusion<D>>>)
    returns (failures: seq<Failure>)
    requires |leaves| <= HALF_RANGE
    ensures failures == Inclusions(h, leaves, root, records, |records|)
  {
    failures := [];
    for i := 0 to |records|
      invariant failures == Inclusions(h, leaves, root, records, i)
    {
      if records[i].None? {
        failures := failures + [InclusionInvalid];
        continue;
      }
      var r := records[i].value;
      if r.treeSize != |leaves| || r.leafIndex >= |leaves| {
        failures := failures + [InclusionInvalid];
        continue;
      }
      var computed := RootFromInclusionProof(h, r.leafIndex, r.treeSize, r.leafHash, r.path);
      if r.leafHash != leaves[r.leafIndex] || computed != Some(root) {
        failures := failures + [InclusionMismatch];
      }
    }
  }

  method VerifyConsistencies<D(==)>(h: (D, D) -> D, zero: D, leaves: seq<D>, records: seq<Consistency<D>>)
    returns (failures: seq<Failure>)
    requires |leaves| <= HALF_RANGE
    ensures failures == Consistencies(h, leaves, records, |records|)
  {
    failures := [];
    for i := 0 to |records|
      invariant failures == Consistencies(h, leaves, records, i)
    {
      var r := records[i];
      if r.path.None? || r.fromSize == 0 || r.fromSize >= r.toSize || r.toSize > |leaves| {
        failures := failures + [ConsistencyInvalid];
        continue;
      }
      var oldRoot := MerkleRoot(h, zero, leaves[..r.fromSize]);
      var newRoot := MerkleRoot(h, zero, leaves[..r.toSize]);
      var computed := RootFromConsistencyProof(h, r.fromSize, r.toSize, oldRoot, r.path.value);
      if computed.None? {
        failures := failures + [ConsistencyInvalid];
      } else if computed.value != newRoot {
        failures := failures + [ConsistencyMismatch];
      }
    }
  }

  // ----- What is accepted -----

  /** The checkpoint is of this ledger, states the root of its first leaves and names the checkpoint before it. */
  predicate CheckpointSound<D(==)>(h: (D, D) -> D, leaves: seq<D>, checkpoints: seq<Checkpoint<D>>, i: nat)
    requires i < |checkpoints|
  {
    var c := checkpoints[i];
    && c.inScope && 0 < c.treeSize <= |leaves|
    && c.treeHead == Mth(h, leaves[..c.treeSize])
    && (i > 0 ==> c.prev == Some(checkpoints[i - 1].digest))
  }

  predicate Silent<D>(chain: Option<Chain<D>>) {
    chain.Some? && chain.value.failures == []
  }

  /** Checkpoints are accepted exactly when they are roots of growing or shrinking prefixes, linked into one chain. */
  lemma {:induction false} CheckpointsExactly<D>(h: (D, D) -> D, leaves: seq<D>, checkpoints: seq<Checkpoint<D>>,
                                                 i: nat)
    requires i <= |checkpoints|
    ensures Silent(ChainAfter(h, leaves, checkpoints, i))
            <==> forall k :: 0 <= k < i ==> CheckpointSound(h, leaves, checkpoints, k)
    ensures Silent(ChainAfter(h, leaves, checkpoints, i)) ==>
              var chain := ChainAfter(h, leaves, checkpoints, i).value;
              if i == 0 then chain.prior.None? && chain.headRoot.None?
              else
                && chain.prior == Some(checkpoints[i - 1].digest)
                && chain.headRoot == Some(checkpoints[i - 1].treeHead)
  {
    hide Mth;
    if i > 0 {
      CheckpointsExactly(h, leaves, checkpoints, i - 1);
      assert (forall k :: 0 <= k < i ==> CheckpointSound(h, leaves, checkpoints, k))
        <==> (forall k :: 0 <= k < i - 1 ==> CheckpointSound(h, leaves, checkpoints, k))
             && CheckpointSound(h, leaves, checkpoints, i - 1);
    }
  }

  lemma {:induction false} InclusionsSilent<D>(h: (D, D) -> D, leaves: seq<D>, root: D,
                                               records: seq<Option<Inclusion<D>>>, i: nat)
    requires i <= |records|
    ensures Inclusions(h, leaves, root, records, i) == []
            <==> forall k :: 0 <= k < i ==> InclusionFailure(h, leaves, root, records[k]).None?
  {
    hide InclusionFailure;
    if i > 0 {
      InclusionsSilent(h, leaves, root, records, i - 1);
    }
  }

  lemma {:induction false} ConsistenciesSilent<D>(h: (D, D) -> D, leaves: seq<D>, records: seq<Consistency<D>>, i: nat)
    requires i <= |records|
    ensures Consistencies(h, leaves, records, i) == []
            <==> forall k :: 0 <= k < i ==> ConsistencyFailure(h, leaves, records[k]).None?
  {
    hide ConsistencyFailure;
    if i > 0 {
      ConsistenciesSilent(h, leaves, records, i - 1);
    }
  }

  /** The record is the leaf and the audit path of its index in the tree of all leaves. */
  predicate IsAuditPath<D(==)>(h: (D, D) -> D, leaves: seq<D>, record: Option<Inclusion<D>>) {
    && record.Some?
    && var r := record.value;
       && r.treeSize == |leaves| && r.leafIndex < |leaves|
       && r.leafHash == leaves[r.leafIndex] && r.path == Path(h, r.leafIndex, leaves)
  }

  /** Against the root of all leaves, exactly the audit paths of the leaves are accepted. */
  lemma {:induction false} InclusionsExactly<D(!new)>(h: (D, D) -> D, leaves: seq<D>,
                                                      records: seq<Option<Inclusion<D>>>)
    requires Injective(h) && leaves != []
    ensures Inclusions(h, leaves, Mth(h, leaves), records, |records|) == []
            <==> forall k :: 0 <= k < |records| ==> IsAuditPath(h, leaves, records[k])
  {
    hide Mth, InclusionRoot, Path, Inclusions;
    InclusionsSilent(h, leaves, Mth(h, leaves), records, |records|);
    forall k | 0 <= k < |records|
      ensures InclusionFailure(h, leaves, Mth(h, leaves), records[k]).None? <==> IsAuditPath(h, leaves, records[k])
    {
      if records[k].Some? && records[k].value.treeSize == |leaves| && records[k].value.leafIndex < |leaves| {
        var r := records[k].value;
        InclusionExact(h, r.leafIndex, leaves, r.leafHash, r.path);
      }
    }
  }

  /** The record is the consistency proof between two prefixes of the leaves. */
  predicate IsConsistencyProof<D(==)>(h: (D, D) -> D, leaves: seq<D>, r: Consistency<D>) {
    0 < r.fromSize < r.toSize <= |leaves| && r.path == Some(Proof(h, r.fromSize, leaves[..r.toSize]))
  }

  /** Exactly the consistency proofs between prefixes of the leaves are accepted. */
  lemma {:induction false} ConsistenciesExactly<D(!new)>(h: (D, D) -> D, leaves: seq<D>, records: seq<Consistency<D>>)
    requires Injective(h)
    ensures Consistencies(h, leaves, records, |records|) == []
            <==> forall k :: 0 <= k < |records| ==> IsConsistencyProof(h, leaves, records[k])
  {
    hide Mth, ConsistencyRoot, Proof, Consistencies;
    ConsistenciesSilent(h, leaves, records, |records|);
    forall k | 0 <= k < |records|
      ensures ConsistencyFailure(h, leaves, records[k]).None? <==> IsConsistencyProof(h, leaves, records[k])
    {
      var r := records[k];
      if r.path.Some? && 0 < r.fromSize < r.toSize <= |leaves| {
        assert leaves[..r.toSize][..r.fromSize] == leaves[..r.fromSize];
        ConsistencyExact(h, r.fromSize, leaves[..r.toSize], Mth(h, leaves[..r.fromSize]), r.path.value);
      }
    }
  }

  // ----- The whole export -----

  /** Records are checked against the head of the last checkpoint of the right scope and size. */
  function HeadRoot<D>(chain: Chain<D>, zero: D): D {
    match chain.headRoot
    case None => zero
    case Some(root) => root
  }

  datatype Export<D> = Export(
    leaves: seq<D>,
    checkpoints: seq<Checkpoint<D>>,
    headDigest: D,
    inclusions: seq<Option<Inclusion<D>>>,
    consistencies: seq<Consistency<D>>)

  function ExportFailures<D(==)>(h: (D, D) -> D, zero: D, e: Export<D>): Option<seq<Failure>> {
    match ChainAfter(h, e.leaves, e.checkpoints, |e.checkpoints|)
    case None => None
    case Some(chain) =>
      Some(chain.failures + (if chain.prior != Some(e.headDigest) then [HeadDigestMismatch] else [])
           + Inclusions(h, e.leaves, HeadRoot(chain, zero), e.inclusions, |e.inclusions|)
           + Consistencies(h, e.leaves, e.consistencies, |e.consistencies|))
  }

  method VerifyExportProofs<D(==)>(h: (D, D) -> D, zero: D, e: Export<D>) returns (r: Option<seq<Failure>>)
    requires |e.leaves| <= HALF_RANGE
    ensures r == ExportFailures(h, zero, e)
  {
    var chain := VerifyCheckpoints(h, zero, e.leaves, e.checkpoints);
    if chain.None? {
      return None;
    }
    var failures := chain.value.failures;
    assert failures + [] == failures;
    if chain.value.prior != Some(e.headDigest) {
      failures := failures + [HeadDigestMismatch];
    }
    var root := if chain.value.headRoot.Some? then chain.value.headRoot.value else zero;
    var inclusions := VerifyInclusions(h, e.leaves, root, e.inclusions);
    var consistencies := VerifyConsistencies(h, zero, e.leaves, e.consistencies);
    return Some(failures + inclusions + consistencies);
  }

  /** The head checkpoint covers the whole ledger. */
  predicate Covered<D>(e: Export<D>) {
    e.checkpoints != [] && e.checkpoints[|e.checkpoints| - 1].treeSize == |e.leaves|
  }

  /**
   * An export whose last checkpoint covers all leaves is accepted exactly when its checkpoints form one chain of true
   * roots up to the promised head and its records are the audit paths and consistency proofs of its own leaves.
   */
  lemma {:induction false} AcceptedExactly<D(!new)>(h: (D, D) -> D, zero: D, e: Export<D>)
    requires Injective(h) && Covered(e)
    ensures ExportFailures(h, zero, e) == Some([])
            <==> && (forall k :: 0 <= k < |e.checkpoints| ==> CheckpointSound(h, e.leaves, e.checkpoints, k))
                 && e.checkpoints[|e.checkpoints| - 1].digest == e.headDigest
                 && (forall k :: 0 <= k < |e.inclusions| ==> IsAuditPath(h, e.leaves, e.inclusions[k]))
                 && (forall k :: 0 <= k < |e.consistencies| ==> IsConsistencyProof(h, e.leaves, e.consistencies[k]))
  {
    hide ChainAfter, Inclusions, Consistencies, Mth, IsAuditPath, IsConsistencyProof;
    var last := |e.checkpoints| - 1;
    CheckpointsExactly(h, e.leaves, e.checkpoints, |e.checkpoints|);
    ConsistenciesExactly(h, e.leaves, e.consistencies);
    if forall k :: 0 <= k < |e.checkpoints| ==> CheckpointSound(h, e.leaves, e.checkpoints, k) {
      assert CheckpointSound(h, e.leaves, e.checkpoints, last);
      assert e.leaves[..e.checkpoints[last].treeSize] == e.leaves;
      InclusionsExactly(h, e.leaves, e.inclusions);
    }
  }

  // ----- What is reported -----

  /** A checkpoint of this ledger whose size it can have. */
  predicate Counts<D>(leaves: seq<D>, c: Checkpoint<D>) {
    c.inScope && 0 < c.treeSize <= |leaves|
  }

  /** The last of the first `i` checkpoints that counts. */
  function LastCounted<D>(leaves: seq<D>, checkpoints: seq<Checkpoint<D>>, i: nat): (r: Option<nat>)
    requires i <= |checkpoints|
    ensures r.Some? ==>
              && r.value < i && Counts(leaves, checkpoints[r.value])
              && forall k :: r.value < k < i ==> !Counts(leaves, checkpoints[k])
    ensures r.None? ==> forall k :: 0 <= k < i ==> !Counts(leaves, checkpoints[k])
  {
    if i == 0 then None
    else if Counts(leaves, checkpoints[i - 1]) then Some(i - 1)
    else LastCounted(leaves, checkpoints, i - 1)
  }

  /** Checkpoint `i` ends the verification: it counts, and its link to the one before that counts is unreadable. */
  predicate Stops<D>(leaves: seq<D>, checkpoints: seq<Checkpoint<D>>, i: nat)
    requires i < |checkpoints|
  {
    Counts(leaves, checkpoints[i]) && LastCounted(leaves, checkpoints, i).Some? && checkpoints[i].prev.None?
  }

  ghost predicate SomeStops<D>(leaves: seq<D>, checkpoints: seq<Checkpoint<D>>, i: nat)
    requires i <= |checkpoints|
  {
    exists k :: 0 <= k < i && Stops(leaves, checkpoints, k)
  }

  lemma NothingStops<D>(leaves: seq<D>, checkpoints: seq<Checkpoint<D>>)
    ensures !SomeStops(leaves, checkpoints, 0)
  {
  }

  lemma StopsNext<D>(leaves: seq<D>, checkpoints: seq<Checkpoint<D>>, i: nat)
    requires 0 < i <= |checkpoints|
    ensures SomeStops(leaves, checkpoints, i)
            <==> SomeStops(leaves, checkpoints, i - 1) || Stops(leaves, checkpoints, i - 1)
  {
  }

  /** What is reported of checkpoint `i`; links are checked against the last checkpoint that counts. */
  function CheckpointReport<D(==)>(h: (D, D) -> D, leaves: seq<D>, checkpoints: seq<Checkpoint<D>>, i: nat)
    : seq<Failure>
    requires i < |checkpoints|
  {
    var c, before := checkpoints[i], LastCounted(leaves, checkpoints, i);
    if !c.inScope then [ScopeMismatch]
    else if !(0 < c.treeSize <= |leaves|) then [TreeSizeInvalid]
    else
      (if c.treeHead == Mth(h, leaves[..c.treeSize]) then [] else [RootMismatch])
      + (if before.Some? && c.prev != Some(checkpoints[before.value].digest) then [PrevHashMismatch] else [])
  }

  function CheckpointReports<D(==)>(h: (D, D) -> D, leaves: seq<D>, checkpoints: seq<Checkpoint<D>>, i: nat)
    : seq<Failure>
    requires i <= |checkpoints|
  {
    if i == 0 then []
    else CheckpointReports(h, leaves, checkpoints, i - 1) + CheckpointReport(h, leaves, checkpoints, i - 1)
  }

  /** The chain remembers the last checkpoint that counts. */
  predicate Remembers<D(==)>(leaves: seq<D>, checkpoints: seq<Checkpoint<D>>, i: nat, chain: Chain<D>)
    requires i <= |checkpoints|
  {
    var last := LastCounted(leaves, checkpoints, i);
    && chain.prior == (if last.None? then None else Some(checkpoints[last.value].digest))
    && chain.headRoot == (if last.None? then None else Some(checkpoints[last.value].treeHead))
  }

  lemma {:induction false} StepExactly<D>(h: (D, D) -> D, leaves: seq<D>, checkpoints: seq<Checkpoint<D>>, i: nat,
                                          chain: Chain<D>)
    requires i < |checkpoints| && Remembers(leaves, checkpoints, i, chain)
    ensures var r := CheckpointStep(h, leaves, checkpoints[i], chain);
            && (r.None? <==> Stops(leaves, checkpoints, i))
            && (r.Some? ==>
                  && r.value.failures == chain.failures + CheckpointReport(h, leaves, checkpoints, i)
                  && Remembers(leaves, checkpoints, i + 1, r.value))
  {
    hide Mth;
  }

  lemma {:induction false} ChainExactly<D>(h: (D, D) -> D, leaves: seq<D>, checkpoints: seq<Checkpoint<D>>, i: nat)
    requires i <= |checkpoints|
    ensures ChainAfter(h, leaves, checkpoints, i).None? <==> SomeStops(leaves, checkpoints, i)
    ensures ChainAfter(h, leaves, checkpoints, i).Some? ==>
              var chain := ChainAfter(h, leaves, checkpoints, i).value;
              chain.failures == CheckpointReports(h, leaves, checkpoints, i)
              && Remembers(leaves, checkpoints, i, chain)
  {
    if i == 0 {
      NothingStops(leaves, checkpoints);
    } else {
      hide CheckpointStep, CheckpointReport, Stops, Remembers, SomeStops;
      ChainExactly(h, leaves, checkpoints, i - 1);
      StopsNext(leaves, checkpoints, i);
      if ChainAfter(h, leaves, checkpoints, i - 1).Some? {
        StepExactly(h, leaves, checkpoints, i - 1, ChainAfter(h, leaves, checkpoints, i - 1).value);
      }
    }
  }

  /** What is reported of an inclusion record: it is unreadable or of another size, or does not lead to the root. */
  function InclusionReport<D(==)>(h: (D, D) -> D, leaves: seq<D>, root: D, record: Option<Inclusion<D>>): seq<Failure> {
    match record
    case None => [InclusionInvalid]
    case Some(Inclusion(treeSize, leafIndex, leafHash, path)) =>
      if !(leafIndex < treeSize == |leaves|) then [InclusionInvalid]
      else if leafHash == leaves[leafIndex]
              && InclusionRoot(h, leafIndex, treeSize, leafHash, path) == Some(root) then []
      else [InclusionMismatch]
  }

  function InclusionReports<D(==)>(h: (D, D) -> D, leaves: seq<D>, root: D, records: seq<Option<Inclusion<D>>>, i: nat)
    : seq<Failure>
    requires i <= |records|
  {
    if i == 0 then []
    else InclusionReports(h, leaves, root, records, i - 1) + InclusionReport(h, leaves, root, records[i - 1])
  }

  /** The record is between two sizes of the ledger and its path leads to the old root. */
  predicate ShowsOldRoot<D(==)>(h: (D, D) -> D, leaves: seq<D>, r: Consistency<D>) {
    && r.path.Some? && 0 < r.fromSize < r.toSize <= |leaves|
    && ConsistencyRoot(h, r.fromSize, r.toSize, Mth(h, leaves[..r.fromSize]), r.path.value).Some?
  }

  /** Nothing is reported of the consistency proof, a mismatch if only the new root is missed. */
  function ConsistencyReport<D(==)>(h: (D, D) -> D, leaves: seq<D>, r: Consistency<D>): seq<Failure> {
    if IsConsistencyProof(h, leaves, r) then []
    else if ShowsOldRoot(h, leaves, r) then [ConsistencyMismatch]
    else [ConsistencyInvalid]
  }

  function ConsistencyReports<D(==)>(h: (D, D) -> D, leaves: seq<D>, records: seq<Consistency<D>>, i: nat): seq<Failure>
    requires i <= |records|
  {
    if i == 0 then []
    else ConsistencyReports(h, leaves, records, i - 1) + ConsistencyReport(h, leaves, records[i - 1])
  }

  lemma {:induction false} InclusionsReported<D>(h: (D, D) -> D, leaves: seq<D>, root: D,
                                                 records: seq<Option<Inclusion<D>>>, i: nat)
    requires i <= |records|
    ensures Inclusions(h, leaves, root, records, i) == InclusionReports(h, leaves, root, records, i)
  {
    hide InclusionRoot;
    if i > 0 {
      InclusionsReported(h, leaves, root, records, i - 1);
    }
  }

  lemma {:induction false} ConsistenciesReported<D(!new)>(h: (D, D) -> D, leaves: seq<D>,
                                                          records: seq<Consistency<D>>, i: nat)
    requires Injective(h) && i <= |records|
    ensures Consistencies(h, leaves, records, i) == ConsistencyReports(h, leaves, records, i)
  {
    hide Mth, ConsistencyRoot, Proof;
    if i > 0 {
      ConsistenciesReported(h, leaves, records, i - 1);
      var r := records[i - 1];
      if r.path.Some? && 0 < r.fromSize < r.toSize <= |leaves| {
        assert leaves[..r.toSize][..r.fromSize] == leaves[..r.fromSize];
        ConsistencyExact(h, r.fromSize, leaves[..r.toSize], Mth(h, leaves[..r.fromSize]), r.path.value);
      }
    }
  }

  /** Everything that is reported of an export, in order, and when its verification ends early. */
  lemma {:induction false} ReportsExactly<D(!new)>(h: (D, D) -> D, zero: D, e: Export<D>)
    requires Injective(h)
    ensures ExportFailures(h, zero, e).None?
            <==> SomeStops(e.leaves, e.checkpoints, |e.checkpoints|)
    ensures ExportFailures(h, zero, e).Some? ==>
              var last := LastCounted(e.leaves, e.checkpoints, |e.checkpoints|);
              var root := if last.None? then zero else e.checkpoints[last.value].treeHead;
              ExportFailures(h, zero, e).value
              == CheckpointReports(h, e.leaves, e.checkpoints, |e.checkpoints|)
                 + (if last.Some? && e.checkpoints[last.value].digest == e.headDigest then [] else [HeadDigestMismatch])
                 + InclusionReports(h, e.leaves, root, e.inclusions, |e.inclusions|)
                 + ConsistencyReports(h, e.leaves, e.consistencies, |e.consistencies|)
  {
    hide Mth, InclusionRoot, ConsistencyRoot, Proof, Stops, CheckpointReport, InclusionReport, ConsistencyReport,
         ChainAfter, Inclusions, Consistencies;
    ChainExactly(h, e.leaves, e.checkpoints, |e.checkpoints|);
    var last := LastCounted(e.leaves, e.checkpoints, |e.checkpoints|);
    InclusionsReported(h, e.leaves, if last.None? then zero else e.checkpoints[last.value].treeHead, e.inclusions,
                       |e.inclusions|);
    ConsistenciesReported(h, e.leaves, e.consistencies, |e.consistencies|);
  }

  lemma LaggingPath<D>(h: (D, D) -> D, a: D, b: D, c: D)
    ensures InclusionRoot(h, 0, 4, a, [b, c]) == Some(h(h(a, b), c))
  {
    assert Xor(1, 0) == 1 && Xor(0, 1) == 1 && Xor(0, 3) == 3 && BitLength(3) == 2;
    assert Shr(0, 1) == 0 && Shr(0, 2) == 0 && PopCount(0) == 0;
    assert [b, c][..2] == [b, c] && [b, c][2..] == [] && [b, c][1..] == [c];
    assert ChainInner(h, h(a, b), [c], 0) == h(h(a, b), c);
  }

  lemma FourLeaves<D>(h: (D, D) -> D, a: D, b: D, c: D, d: D)
    ensures Mth(h, [a, b, c]) == h(h(a, b), c)
    ensures Path(h, 0, [a, b, c, d]) == [b, h(c, d)]
  {
    assert Split(2) == 1 && Split(3) == 2 && Split(4) == 2;
    assert Left([a, b]) == [a] && Right([a, b]) == [b] && Left([c, d]) == [c] && Right([c, d]) == [d];
    assert Left([a, b, c]) == [a, b] && Right([a, b, c]) == [c];
    assert Left([a, b, c, d]) == [a, b] && Right([a, b, c, d]) == [c, d];
    assert Mth(h, [a]) == a && Mth(h, [b]) == b && Mth(h, [c]) == c && Mth(h, [d]) == d;
    assert Mth(h, [a, b]) == h(a, b) && Mth(h, [c, d]) == h(c, d);
    assert Path(h, 0, [a]) == [] && Path(h, 0, [a, b]) == [b];
  }

  /** A head that lags behind the ledger lets through a path that is not an audit path of the ledger's tree. */
  lemma {:induction false} LaggingHead<D(!new)>(h: (D, D) -> D, zero: D, a: D, b: D, c: D, d: D, digest: D)
    requires h(c, d) != c
    ensures var leaves := [a, b, c, d];
            var checkpoint := Checkpoint(true, 3, Mth(h, [a, b, c]), None, digest);
            var record := Some(Inclusion(4, 0, a, [b, c]));
            && ExportFailures(h, zero, Export(leaves, [checkpoint], digest, [record], [])) == Some([])
            && !IsAuditPath(h, leaves, record)
  {
    hide Mth, Path, InclusionRoot;
    LaggingPath(h, a, b, c);
    FourLeaves(h, a, b, c, d);
    var leaves, root := [a, b, c, d], Mth(h, [a, b, c]);
    var checkpoint, record := Checkpoint(true, 3, root, None, digest), Some(Inclusion(4, 0, a, [b, c]));
    assert leaves[..3] == [a, b, c];
    assert ChainAfter(h, leaves, [checkpoint], 0) == Some(Chain([], None, None));
    assert ChainAfter(h, leaves, [checkpoint], 1) == Some(Chain([], Some(digest), Some(root)));
    assert InclusionFailure(h, leaves, root, record) == None;
    assert Inclusions(h, leaves, root, [record], 0) == [] && Inclusions(h, leaves, root, [record], 1) == [];
    var e := Export(leaves, [checkpoint], digest, [record], []);
    assert Consistencies(h, leaves, e.consistencies, 0) == [];
    var nothing: seq<Failure> := [];
    assert nothing + nothing + nothing + nothing == nothing;
    assert ExportFailures(h, zero, e) == Some(nothing);
    assert [b, c][1] != [b, h(c, d)][1];
  }
}
