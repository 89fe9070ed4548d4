/** The attachment-binding lineage of an exported ledger: distinct rows, resolved priors, priors before bindings. */
module Attachments {
  import opened Bytes
  import opened LineageGraph
  import opened Wrappers

  type Hash = Bytes

  datatype Row = Row(binding: Hash, prior: Option<Hash>)

  datatype Failure =
    | DuplicateBinding(hash: Hash)
    | LineageCycle
    | PriorUnresolved(hash: Hash)
    | ForwardReference(hash: Hash)

  /** One report for each row whose binding is among `seen` or in an earlier row. */
  function AddDuplicates(failures: seq<Failure>, rows: seq<Row>, seen: set<Hash>): seq<Failure>
    decreases |rows|
  {
    if rows == [] then failures
    else
      AddDuplicates(if rows[0].binding in seen then failures + [DuplicateBinding(rows[0].binding)] else failures,
                    rows[1..], seen + {rows[0].binding})
  }

  /** Whether a row is an edge of the lineage graph: it has a prior and both ends are events. */
  predicate Linked(row: Row, index: map<Hash, nat>) {
    row.prior.Some? && row.binding in index && row.prior.value in index
  }

  function AddLink(adj: Adjacency<Hash>, row: Row, index: map<Hash, nat>): Adjacency<Hash> {
    if !Linked(row, index) then adj
    else adj[row.binding := (if row.binding in adj then adj[row.binding] else []) + [row.prior.value]]
  }

  function Links(adj: Adjacency<Hash>, rows: seq<Row>, index: map<Hash, nat>): Adjacency<Hash>
    decreases |rows|
  {
    if rows == [] then adj else Links(AddLink(adj, rows[0], index), rows[1..], index)
  }

  /** Rows that are not events and rows without a prior are not ordered. */
  function AddOrderFailure(failures: seq<Failure>, row: Row, index: map<Hash, nat>): seq<Failure> {
    if row.binding !in index || row.prior.None? then failures
    else if row.prior.value !in index then failures + [PriorUnresolved(row.binding)]
    else if index[row.prior.value] >= index[row.binding] then failures + [ForwardReference(row.binding)]
    else failures
  }

  function AddOrderFailures(failures: seq<Failure>, rows: seq<Row>, index: map<Hash, nat>): seq<Failure>
    decreases |rows|
  {
    if rows == [] then failures else AddOrderFailures(AddOrderFailure(failures, rows[0], index), rows[1..], index)
  }

  ghost function Failures(rows: seq<Row>, index: map<Hash, nat>): seq<Failure> {
    var duplicates := AddDuplicates([], rows, {});
    var cyclic := if HasCycle(Links(map[], rows, index)) then [LineageCycle] else [];
    AddOrderFailures(duplicates + cyclic, rows, index)
  }

  method TopologyFailures(rows: seq<Row>, index: map<Hash, nat>) returns (failures: seq<Failure>)
    ensures failures == Failures(rows, index)
  {
    failures := [];
    var seen: set<Hash> := {};
    for i := 0 to |rows|
      invariant AddDuplicates(failures, rows[i..], seen) == AddDuplicates([], rows, {})
    {
      assert rows[i..][1..] == rows[i + 1..];
      if rows[i].binding in seen {
        failures := failures + [DuplicateBinding(rows[i].binding)];
      }
      seen := seen + {rows[i].binding};
    }
    var adj: Adjacency<Hash> := map[];
    for i := 0 to |rows|
      invariant Links(adj, rows[i..], index) == Links(map[], rows, index)
    {
      assert rows[i..][1..] == rows[i + 1..];
      var row := rows[i];
      if row.prior.Some? && row.binding in index && row.prior.value in index {
        adj := adj[row.binding := (if row.binding in adj then adj[row.binding] else []) + [row.prior.value]];
      }
    }
    ghost var duplicates := failures;
    var cyclic := HasLineageCycle(adj);
    if cyclic {
      failures := failures + [LineageCycle];
    } else {
      assert duplicates + [] == failures;
    }
    for i := 0 to |rows|
      invariant AddOrderFailures(failures, rows[i..], index) == Failures(rows, index)
    {
      assert rows[i..][1..] == rows[i + 1..];
      var row := rows[i];
      if row.binding !in index || row.prior.None? {
        continue;
      }
      if row.prior.value !in index {
        failures := failures + [PriorUnresolved(row.binding)];
        continue;
      }
      if index[row.prior.value] >= index[row.binding] {
        failures := failures + [ForwardReference(row.binding)];
      }
    }
  }

  ghost predicate Distinct(rows: seq<Row>) {
    forall i, j :: 0 <= i < j < |rows| ==> rows[i].binding != rows[j].binding
  }

  /** Every row that is an event and names a prior finds that prior at an earlier event. */
  ghost predicate Ordered(rows: seq<Row>, index: map<Hash, nat>) {
    forall i :: 0 <= i < |rows| && rows[i].binding in index && rows[i].prior.Some? ==>
                  rows[i].prior.value in index && index[rows[i].prior.value] < index[rows[i].binding]
  }

  /** Some row binds `from` and names `to` as its prior. */
  ghost predicate Names(rows: seq<Row>, from: Hash, to: Hash) {
    Row(from, Some(to)) in rows
  }

  ghost predicate Earlier(index: map<Hash, nat>, to: Hash, from: Hash) {
    from in index && to in index && index[to] < index[from]
  }

  function Count(rows: seq<Row>, hash: Hash): nat {
    if rows == [] then 0 else (if rows[0].binding == hash then 1 else 0) + Count(rows[1..], hash)
  }

  /** Each repetition of a binding is reported once. */
  lemma {:induction false} DuplicatesCounted(failures: seq<Failure>, rows: seq<Row>, seen: set<Hash>, hash: Hash)
    ensures multiset(AddDuplicates(failures, rows, seen))[DuplicateBinding(hash)]
            == multiset(failures)[DuplicateBinding(hash)]
               + if hash in seen || Count(rows, hash) == 0 then Count(rows, hash) else Count(rows, hash) - 1
    decreases |rows|
  {
    if rows != [] {
      var more := if rows[0].binding in seen then failures + [DuplicateBinding(rows[0].binding)] else failures;
      DuplicatesCounted(more, rows[1..], seen + {rows[0].binding}, hash);
    }
  }

  lemma {:induction false} OthersKeepDuplicates(failures: seq<Failure>, rows: seq<Row>, index: map<Hash, nat>,
                                                hash: Hash)
    ensures multiset(AddOrderFailures(failures, rows, index))[DuplicateBinding(hash)]
            == multiset(failures)[DuplicateBinding(hash)]
    decreases |rows|
  {
    if rows != [] {
      OthersKeepDuplicates(AddOrderFailure(failures, rows[0], index), rows[1..], index, hash);
    }
  }

  /** A binding with k rows is reported k - 1 times. */
  lemma RepetitionsReported(rows: seq<Row>, index: map<Hash, nat>, hash: Hash)
    ensures multiset(Failures(rows, index))[DuplicateBinding(hash)]
            == if Count(rows, hash) == 0 then 0 else Count(rows, hash) - 1
  {
    DuplicatesCounted([], rows, {}, hash);
    var cyclic := if HasCycle(Links(map[], rows, index)) then [LineageCycle] else [];
    OthersKeepDuplicates(AddDuplicates([], rows, {}) + cyclic, rows, index, hash);
  }

  lemma {:induction false} NoDuplicates(failures: seq<Failure>, rows: seq<Row>, seen: set<Hash>)
    ensures AddDuplicates(failures, rows, seen) == []
            <==> failures == [] && Distinct(rows) && forall i :: 0 <= i < |rows| ==> rows[i].binding !in seen
    decreases |rows|
  {
    if rows != [] {
      var reported := if rows[0].binding in seen then failures + [DuplicateBinding(rows[0].binding)] else failures;
      var more := seen + {rows[0].binding};
      NoDuplicates(reported, rows[1..], more);
      assert forall i :: 0 < i < |rows| ==> rows[i] == rows[1..][i - 1];
      if Distinct(rows) && forall i :: 0 <= i < |rows| ==> rows[i].binding !in seen {
        assert Distinct(rows[1..]) && forall i :: 0 <= i < |rows[1..]| ==> rows[1..][i].binding !in more;
      } else if Distinct(rows[1..]) && forall i :: 0 <= i < |rows[1..]| ==> rows[1..][i].binding !in more {
        assert rows[0].binding in seen;
      }
    }
  }

  lemma {:induction false} NoOrderFailures(failures: seq<Failure>, rows: seq<Row>, index: map<Hash, nat>)
    ensures AddOrderFailures(failures, rows, index) == [] <==> failures == [] && Ordered(rows, index)
    decreases |rows|
  {
    if rows != [] {
      NoOrderFailures(AddOrderFailure(failures, rows[0], index), rows[1..], index);
      assert forall i :: 0 < i < |rows| ==> rows[i] == rows[1..][i - 1];
    }
  }

  /** The edges of the lineage graph are the linked rows. */
  lemma {:induction false} LinksAreRows(adj: Adjacency<Hash>, rows: seq<Row>, index: map<Hash, nat>, from: Hash,
                                        to: Hash)
    ensures Edge(Links(adj, rows, index), from, to)
            <==> Edge(adj, from, to) || (from in index && to in index && Names(rows, from, to))
    decreases |rows|
  {
    if rows != [] {
      LinksAreRows(AddLink(adj, rows[0], index), rows[1..], index, from, to);
      assert rows == [rows[0]] + rows[1..];
    }
  }

  ghost predicate Descending(adj: Adjacency<Hash>, index: map<Hash, nat>) {
    forall from, to :: Edge(adj, from, to) ==> Earlier(index, to, from)
  }

  lemma {:induction false} WalkDescends(adj: Adjacency<Hash>, index: map<Hash, nat>, p: seq<Hash>)
    requires Descending(adj, index) && Walk(adj, p) && |p| >= 2
    ensures p[0] in index && p[|p| - 1] in index && index[p[|p| - 1]] + |p| - 1 <= index[p[0]]
  {
    assert Edge(adj, p[|p| - 2], p[|p| - 1]);
    if |p| > 2 {
      WalkDescends(adj, index, p[..|p| - 1]);
    }
  }

  lemma WithoutForwardDescends(rows: seq<Row>, index: map<Hash, nat>)
    requires forall i :: 0 <= i < |rows| && Linked(rows[i], index) ==>
               index[rows[i].prior.value] < index[rows[i].binding]
    ensures Descending(Links(map[], rows, index), index)
  {
    forall from, to | Edge(Links(map[], rows, index), from, to)
      ensures Earlier(index, to, from)
    {
      LinksAreRows(map[], rows, index, from, to);
    }
  }

  lemma {:induction false} OrderFailuresKeep(failures: seq<Failure>, rows: seq<Row>, index: map<Hash, nat>)
    ensures failures <= AddOrderFailures(failures, rows, index)
    decreases |rows|
  {
    if rows != [] {
      OrderFailuresKeep(AddOrderFailure(failures, rows[0], index), rows[1..], index);
    }
  }

  lemma {:induction false} ForwardIsReported(failures: seq<Failure>, rows: seq<Row>, index: map<Hash, nat>, i: nat)
    requires i < |rows| && Linked(rows[i], index) && index[rows[i].prior.value] >= index[rows[i].binding]
    ensures ForwardReference(rows[i].binding) in AddOrderFailures(failures, rows, index)
    decreases |rows|
  {
    var more := AddOrderFailure(failures, rows[0], index);
    if i > 0 {
      ForwardIsReported(more, rows[1..], index, i - 1);
    } else {
      OrderFailuresKeep(more, rows[1..], index);
      assert more[|failures|] == ForwardReference(rows[0].binding);
    }
  }

  lemma {:induction false} CycleIsReported(rows: seq<Row>, index: map<Hash, nat>)
    ensures LineageCycle in Failures(rows, index) <==> HasCycle(Links(map[], rows, index))
  {
    var duplicates := AddDuplicates([], rows, {});
    var cyclic := if HasCycle(Links(map[], rows, index)) then [LineageCycle] else [];
    OnlyDuplicates([], rows, {});
    OnlyOrder(duplicates + cyclic, rows, index);
  }

  lemma {:induction false} OnlyDuplicates(failures: seq<Failure>, rows: seq<Row>, seen: set<Hash>)
    ensures LineageCycle in AddDuplicates(failures, rows, seen) <==> LineageCycle in failures
    decreases |rows|
  {
    if rows != [] {
      var more := if rows[0].binding in seen then failures + [DuplicateBinding(rows[0].binding)] else failures;
      OnlyDuplicates(more, rows[1..], seen + {rows[0].binding});
    }
  }

  lemma {:induction false} OnlyOrder(failures: seq<Failure>, rows: seq<Row>, index: map<Hash, nat>)
    ensures LineageCycle in AddOrderFailures(failures, rows, index) <==> LineageCycle in failures
    decreases |rows|
  {
    if rows != [] {
      OnlyOrder(AddOrderFailure(failures, rows[0], index), rows[1..], index);
    }
  }

  /** A reported cycle never comes without a forward reference. */
  lemma CycleImpliesForwardReference(rows: seq<Row>, index: map<Hash, nat>)
    requires LineageCycle in Failures(rows, index)
    ensures exists hash :: ForwardReference(hash) in Failures(rows, index)
  {
    CycleIsReported(rows, index);
    var adj := Links(map[], rows, index);
    var p :| Cycle(adj, p);
    if forall i :: 0 <= i < |rows| && Linked(rows[i], index) ==> index[rows[i].prior.value] < index[rows[i].binding] {
      WithoutForwardDescends(rows, index);
      WalkDescends(adj, index, p);
      assert false;
    }
    var i :| 0 <= i < |rows| && Linked(rows[i], index) && index[rows[i].prior.value] >= index[rows[i].binding];
    ForwardIsReported(AddDuplicates([], rows, {}) + [LineageCycle], rows, index, i);
    assert ForwardReference(rows[i].binding) in Failures(rows, index);
  }

  /** Nothing is reported exactly for distinct rows whose priors come first. */
  lemma AcceptedExactly(rows: seq<Row>, index: map<Hash, nat>)
    ensures Failures(rows, index) == [] <==> Distinct(rows) && Ordered(rows, index)
  {
    NoDuplicates([], rows, {});
    NoOrderFailures(AddDuplicates([], rows, {}) + [], rows, index);
    NoOrderFailures(AddDuplicates([], rows, {}) + [LineageCycle], rows, index);
    if Ordered(rows, index) && HasCycle(Links(map[], rows, index)) {
      var p :| Cycle(Links(map[], rows, index), p);
      WithoutForwardDescends(rows, index);
      WalkDescends(Links(map[], rows, index), index, p);
    }
  }

  /** In an accepted manifest a chain of priors runs strictly backwards; its first index bounds its length. */
  lemma PriorChainsAreWellFounded(rows: seq<Row>, index: map<Hash, nat>, chain: seq<Hash>)
    requires Failures(rows, index) == []
    requires |chain| > 0 && chain[0] in index
    requires forall i :: 0 < i < |chain| ==> Names(rows, chain[i - 1], chain[i])
    ensures forall i :: 0 < i < |chain| ==> Earlier(index, chain[i], chain[i - 1])
    ensures |chain| <= index[chain[0]] + 1
  {
    AcceptedExactly(rows, index);
    ChainDescends(rows, index, chain);
  }

  lemma {:induction false} ChainDescends(rows: seq<Row>, index: map<Hash, nat>, chain: seq<Hash>)
    requires Ordered(rows, index)
    requires |chain| > 0 && chain[0] in index
    requires forall i :: 0 < i < |chain| ==> Names(rows, chain[i - 1], chain[i])
    ensures forall i :: 0 < i < |chain| ==> Earlier(index, chain[i], chain[i - 1])
    ensures |chain| <= index[chain[0]] + 1
    decreases |chain|
  {
    if |chain| > 1 {
      assert Names(rows, chain[0], chain[1]);
      assert forall i :: 0 < i < |chain| ==> chain[i] == chain[1..][i - 1];
      ChainDescends(rows, index, chain[1..]);
    }
  }

  // ----- The whole report -----

  /** One report for each of the first `i` rows whose binding an earlier row has. */
  function DuplicatesOf(rows: seq<Row>, i: nat): seq<Failure>
    requires i <= |rows|
  {
    if i == 0 then []
    else
      DuplicatesOf(rows, i - 1)
      + if exists j :: 0 <= j < i - 1 && rows[j].binding == rows[i - 1].binding
        then [DuplicateBinding(rows[i - 1].binding)] else []
  }

  /** Rows lead from an event back to itself, each from a binding to its prior. */
  ghost predicate Circular(rows: seq<Row>, index: map<Hash, nat>) {
    exists p: seq<Hash> :: Connected(rows, index, p) && |p| >= 2 && p[0] == p[|p| - 1]
  }

  ghost predicate Connected(rows: seq<Row>, index: map<Hash, nat>, p: seq<Hash>) {
    forall k :: 0 < k < |p| ==> Follows(rows, index, p[k - 1], p[k])
  }

  ghost predicate Follows(rows: seq<Row>, index: map<Hash, nat>, from: Hash, to: Hash) {
    from in index && to in index && Names(rows, from, to)
  }

  /** A row that is an event must name a prior that is an earlier event, if it names any. */
  function OrderReport(row: Row, index: map<Hash, nat>): seq<Failure> {
    match row.prior
    case None => []
    case Some(prior) =>
      if row.binding !in index then []
      else if prior !in index then [PriorUnresolved(row.binding)]
      else if index[prior] < index[row.binding] then []
      else [ForwardReference(row.binding)]
  }

  function OrderReports(rows: seq<Row>, index: map<Hash, nat>, i: nat): seq<Failure>
    requires i <= |rows|
  {
    if i == 0 then [] else OrderReports(rows, index, i - 1) + OrderReport(rows[i - 1], index)
  }

  lemma {:induction false} DuplicatesReported(rows: seq<Row>, i: nat, seen: set<Hash>)
    requires i <= |rows| && seen == set j | 0 <= j < i :: rows[j].binding
    ensures AddDuplicates(DuplicatesOf(rows, i), rows[i..], seen) == DuplicatesOf(rows, |rows|)
    decreases |rows| - i
  {
    if i < |rows| {
      assert rows[i..][1..] == rows[i + 1..] && rows[i..][0] == rows[i];
      var failures := DuplicatesOf(rows, i);
      assert rows[i].binding in seen <==> exists j :: 0 <= j < i && rows[j].binding == rows[i].binding;
      assert failures + [] == failures;
      DuplicatesReported(rows, i + 1, seen + {rows[i].binding});
    }
  }

  lemma {:induction false} OrderReported(failures: seq<Failure>, rows: seq<Row>, index: map<Hash, nat>, i: nat)
    requires i <= |rows|
    ensures AddOrderFailures(failures + OrderReports(rows, index, i), rows[i..], index)
            == failures + OrderReports(rows, index, |rows|)
    decreases |rows| - i
  {
    if i < |rows| {
      assert rows[i..][1..] == rows[i + 1..] && rows[i..][0] == rows[i];
      var before := failures + OrderReports(rows, index, i);
      assert AddOrderFailure(before, rows[i], index) == before + OrderReport(rows[i], index);
      assert before + OrderReport(rows[i], index) == failures + OrderReports(rows, index, i + 1);
      OrderReported(failures, rows, index, i + 1);
    }
  }

  lemma {:induction false} CircularExactly(rows: seq<Row>, index: map<Hash, nat>)
    ensures HasCycle(Links(map[], rows, index)) <==> Circular(rows, index)
  {
    var adj := Links(map[], rows, index);
    forall from, to
      ensures Edge(adj, from, to) <==> Follows(rows, index, from, to)
    {
      LinksAreRows(map[], rows, index, from, to);
    }
    hide Links, Follows, Edge;
    if HasCycle(adj) {
      var p :| Cycle(adj, p);
      assert Connected(rows, index, p);
    }
    if Circular(rows, index) {
      var p: seq<Hash> :| Connected(rows, index, p) && |p| >= 2 && p[0] == p[|p| - 1];
      assert Cycle(adj, p);
    }
  }

  /** Everything that is reported, in order. */
  lemma {:induction false} ReportsExactly(rows: seq<Row>, index: map<Hash, nat>)
    ensures Failures(rows, index)
            == DuplicatesOf(rows, |rows|) + (if Circular(rows, index) then [LineageCycle] else [])
               + OrderReports(rows, index, |rows|)
  {
    hide Circular, HasCycle, AddDuplicates, AddOrderFailures;
    DuplicatesReported(rows, 0, {});
    CircularExactly(rows, index);
    var before := DuplicatesOf(rows, |rows|) + if Circular(rows, index) then [LineageCycle] else [];
    OrderReported(before, rows, index, 0);
    assert rows[0..] == rows && before + [] == before;
  }
}
