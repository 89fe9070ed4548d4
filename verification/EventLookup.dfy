/** The index over decoded events that the later passes resolve hashes and chain positions with. */
module EventLookup {
  import opened Bytes
  import opened Wrappers

  type Hash = Bytes
  type Position = (Bytes, nat)

  datatype Details = Details(hash: Hash, scope: Bytes, sequence: nat)

  function PositionOf(details: Details): Position {
    (details.scope, details.sequence)
  }

  /** Event `i` decodes and no event before it has its hash. */
  ghost predicate Leads(events: seq<Option<Details>>, i: nat) {
    && i < |events| && events[i].Some?
    && forall j :: 0 <= j < i && events[j].Some? ==> events[j].value.hash != events[i].value.hash
  }

  /** Among the leading events event `i` is the first at its position. */
  ghost predicate LeadsPosition(events: seq<Option<Details>>, i: nat) {
    && Leads(events, i)
    && forall j :: 0 <= j < i && Leads(events, j) ==> PositionOf(events[j].value) != PositionOf(events[i].value)
  }

  ghost predicate FindsByHash(pool: seq<Details>, byHash: map<Hash, nat>, details: Details) {
    details.hash in byHash && byHash[details.hash] < |pool| && pool[byHash[details.hash]] == details
  }

  ghost predicate FindsByPosition(pool: seq<Details>, byPosition: map<Position, nat>, details: Details) {
    var at := PositionOf(details);
    at in byPosition && byPosition[at] < |pool| && pool[byPosition[at]] == details
  }

  /** `pool` lists the leading events in order. */
  ghost predicate Pools(events: seq<Option<Details>>, n: nat, pool: seq<Details>, origin: seq<nat>)
    requires n <= |events|
  {
    && |origin| == |pool|
    && (forall p :: 0 <= p < |pool| ==> origin[p] < n && Leads(events, origin[p]) && pool[p] == events[origin[p]].value)
    && (forall p, q :: 0 <= p < q < |pool| ==> origin[p] < origin[q])
    && (forall i :: 0 <= i < n && Leads(events, i) ==> i in origin)
  }

  /** Hashes lead to the one pool entry that has them. */
  ghost predicate IndexesHashes(pool: seq<Details>, byHash: map<Hash, nat>) {
    && (forall hash :: hash in byHash ==> byHash[hash] < |pool| && pool[byHash[hash]].hash == hash)
    && (forall p :: 0 <= p < |pool| ==> pool[p].hash in byHash && byHash[pool[p].hash] == p)
  }

  /** Positions lead to the first pool entry that has them. */
  ghost predicate IndexesPositions(pool: seq<Details>, byPosition: map<Position, nat>) {
    && (forall at :: at in byPosition ==> byPosition[at] < |pool| && PositionOf(pool[byPosition[at]]) == at)
    && (forall p :: 0 <= p < |pool| ==> PositionOf(pool[p]) in byPosition && byPosition[PositionOf(pool[p])] <= p)
  }

  /** Every decoded event's hash is indexed. */
  ghost predicate Covers(events: seq<Option<Details>>, n: nat, byHash: map<Hash, nat>)
    requires n <= |events|
  {
    forall i :: 0 <= i < n && events[i].Some? ==> events[i].value.hash in byHash
  }

  method BuildEventDetailsLookup(events: seq<Option<Details>>)
    returns (pool: seq<Details>, byHash: map<Hash, nat>, byPosition: map<Position, nat>)
    ensures exists origin :: Pools(events, |events|, pool, origin)
    ensures IndexesHashes(pool, byHash) && IndexesPositions(pool, byPosition)
    ensures Covers(events, |events|, byHash)
    ensures forall i: nat :: Leads(events, i) ==> FindsByHash(pool, byHash, events[i].value)
    ensures forall i: nat :: LeadsPosition(events, i) ==> FindsByPosition(pool, byPosition, events[i].value)
  {
    hide Pools, IndexesHashes, IndexesPositions, Covers, FindsByHash, FindsByPosition;
    pool, byHash, byPosition := [], map[], map[];
    ghost var origin: seq<nat> := [];
    IndexesNothing(events);
    for i := 0 to |events|
      invariant Pools(events, i, pool, origin)
      invariant IndexesHashes(pool, byHash) && IndexesPositions(pool, byPosition)
      invariant Covers(events, i, byHash)
    {
      PoolsNext(events, i, pool, origin, byHash);
      CoversNext(events, i, byHash, |pool|);
      if events[i].None? {
        continue;
      }
      var details := events[i].value;
      if details.hash in byHash {
        continue;
      }
      IndexesNext(pool, byHash, byPosition, details);
      var entry := |pool|;
      pool := pool + [details];
      byHash := byHash[details.hash := entry];
      if PositionOf(details) !in byPosition {
        byPosition := byPosition[PositionOf(details) := entry];
      }
      origin := origin + [i];
    }
    forall i: nat | Leads(events, i)
      ensures FindsByHash(pool, byHash, events[i].value)
    {
      ResolvesToFirst(events, pool, origin, byHash, i);
    }
    forall i: nat | LeadsPosition(events, i)
      ensures FindsByPosition(pool, byPosition, events[i].value)
    {
      PositionResolvesToFirst(events, pool, origin, byPosition, i);
    }
  }

  lemma IndexesNothing(events: seq<Option<Details>>)
    ensures Pools(events, 0, [], []) && IndexesHashes([], map[]) && IndexesPositions([], map[])
    ensures Covers(events, 0, map[])
  {
  }

  lemma IndexesNext(pool: seq<Details>, byHash: map<Hash, nat>, byPosition: map<Position, nat>, details: Details)
    requires IndexesHashes(pool, byHash) && IndexesPositions(pool, byPosition) && details.hash !in byHash
    ensures IndexesHashes(pool + [details], byHash[details.hash := |pool|])
    ensures var at := PositionOf(details);
            IndexesPositions(pool + [details], if at in byPosition then byPosition else byPosition[at := |pool|])
  {
  }

  lemma CoversNext(events: seq<Option<Details>>, i: nat, byHash: map<Hash, nat>, entry: nat)
    requires i < |events| && Covers(events, i, byHash)
    ensures events[i].None? || events[i].value.hash in byHash ==> Covers(events, i + 1, byHash)
    ensures events[i].Some? ==> Covers(events, i + 1, byHash[events[i].value.hash := entry])
  {
  }

  lemma PoolsNext(events: seq<Option<Details>>, i: nat, pool: seq<Details>, origin: seq<nat>, byHash: map<Hash, nat>)
    requires i < |events|
    requires Pools(events, i, pool, origin) && IndexesHashes(pool, byHash) && Covers(events, i, byHash)
    ensures if events[i].Some? && events[i].value.hash !in byHash then
              Pools(events, i + 1, pool + [events[i].value], origin + [i])
            else Pools(events, i + 1, pool, origin)
  {
    if events[i].Some? && events[i].value.hash !in byHash {
      assert Leads(events, i);
      var longer := origin + [i];
      forall j | 0 <= j < i + 1 && Leads(events, j)
        ensures j in longer
      {
        assert longer[|origin|] == i;
      }
    } else if events[i].Some? {
      assert origin[byHash[events[i].value.hash]] < i;
      assert !Leads(events, i);
    }
  }

  lemma ResolvesToFirst(events: seq<Option<Details>>, pool: seq<Details>, origin: seq<nat>, byHash: map<Hash, nat>,
                        i: nat)
    requires Pools(events, |events|, pool, origin) && IndexesHashes(pool, byHash)
    requires Leads(events, i)
    ensures FindsByHash(pool, byHash, events[i].value)
  {
  }

  lemma PositionResolvesToFirst(events: seq<Option<Details>>, pool: seq<Details>, origin: seq<nat>,
                                byPosition: map<Position, nat>, i: nat)
    requires Pools(events, |events|, pool, origin) && IndexesPositions(pool, byPosition)
    requires LeadsPosition(events, i)
    ensures FindsByPosition(pool, byPosition, events[i].value)
  {
  }
}
