/**
 * Nested verification of the predecessor bundles that a supersession graph names. What an archive's members say and
 * which other checks they fail are parameters.
 */
module Supersession {
  import opened Bytes
  import opened CborHead
  import opened Wrappers
  import opened Zip

  type Id = Bytes
  type Digest = Bytes
  type Members = map<Bytes, Bytes>

  datatype Row = Row(chainId: Id, checkpoint: Digest, bundlePath: Option<Bytes>)
  datatype Graph = Graph(head: Id, rows: seq<Row>)
  datatype Extension = Extension(graphDigest: Digest, rowCount: nat)
  datatype Manifest = Manifest(scope: Id, headCheckpoint: Digest, extension: Option<Extension>)
  datatype Linkage = Linkage(chainId: Id, checkpoint: Digest, event: Digest)

  datatype Failure =
    | GraphInvalid
    | GraphUnbound
    | HeadMismatch
    | LinkageMismatch(event: Digest)
    | GraphCycle
    | CheckpointMismatch(bundlePath: Bytes)
    | Other(location: Bytes)

  datatype Report = Fatal | Checked(failures: seq<Failure>)

  /** Foreign parts: checksum and digest, readers of the members, and all checks that are not about supersession. */
  datatype Foreign = Foreign(
    crc: Crc,
    digest: Bytes -> Digest,
    graph: Bytes -> Option<Graph>,
    manifest: Members -> Option<Manifest>,
    linkages: Members -> seq<Linkage>,
    fatal: Members -> bool,
    failures: Members -> seq<Failure>)

  const SLASH: byte := 0x2f

  function GraphMember(): Bytes {
    Ascii("064-supersession-graph.json")
  }

  predicate Accepted(report: Report) {
    report.Checked? && report.failures == []
  }

  // ----- Archives -----

  /** What follows the first slash. */
  function RelativeName(path: Bytes): Option<Bytes> {
    if path == [] then None else if path[0] == SLASH then Some(path[1..]) else RelativeName(path[1..])
  }

  /** Later entries replace earlier ones of the same relative name. */
  function Collect(members: Members, entries: seq<Entry>): Option<Members>
    decreases |entries|
  {
    if entries == [] then Some(members)
    else
      match RelativeName(entries[0].path)
      case None => None
      case Some(name) => Collect(members[name := entries[0].bytes], entries[1..])
  }

  function ParseExport(crc: Crc, zip: Bytes): Option<Members> {
    match Entries(crc, zip)
    case Err(_) => None
    case Ok(entries) => Collect(map[], entries)
  }

  method ParseExportZip(crc: Crc, zip: Bytes) returns (r: Option<Members>)
    ensures r == ParseExport(crc, zip)
  {
    var entries := ReadStoredZip(crc, zip);
    if entries.Err? {
      return None;
    }
    var members: Members := map[];
    for i := 0 to |entries.value|
      invariant Collect(members, entries.value[i..]) == Collect(map[], entries.value)
    {
      assert entries.value[i..][1..] == entries.value[i + 1..];
      var name := RelativeName(entries.value[i].path);
      if name.None? {
        return None;
      }
      members := members[name.value := entries.value[i].bytes];
    }
    return Some(members);
  }

  /** The members of an archive of `size` bytes. */
  datatype Archive = Archive(members: Members, size: nat) {
    predicate Valid() {
      forall name :: name in members ==> |members[name]| + LOCAL_HEADER_LEN <= size
    }
  }

  /** The rows of a graph, beside the archive their bundles are found in. */
  datatype Level = Level(archive: Archive, rows: seq<Row>)

  lemma {:induction false} CollectedInside(members: Members, entries: seq<Entry>, size: nat)
    requires Archive(members, size).Valid() && Fit(entries, size) && Collect(members, entries).Some?
    ensures Archive(Collect(members, entries).value, size).Valid()
    decreases |entries|
  {
    if entries != [] {
      assert entries[0] in entries && forall e :: e in entries[1..] ==> e in entries;
      var name := RelativeName(entries[0].path).value;
      CollectedInside(members[name := entries[0].bytes], entries[1..], size);
    }
  }

  /** Every member of an archive is at least 30 bytes shorter than the archive. */
  lemma MembersAreShorter(crc: Crc, zip: Bytes)
    requires ParseExport(crc, zip).Some?
    ensures Archive(ParseExport(crc, zip).value, |zip|).Valid()
  {
    PayloadsAreShorter(crc, zip);
    CollectedInside(map[], Entries(crc, zip).value, |zip|);
  }

  // ----- Graphs -----

  datatype Loaded = Loaded(failures: seq<Failure>, graph: Option<Graph>)

  /** Reads the graph a manifest binds; a wrong row count or head is reported but does not stop. */
  function LoadGraph(foreign: Foreign, members: Members, extension: Extension, scope: Id): Loaded {
    if GraphMember() !in members then Loaded([GraphInvalid], None)
    else if foreign.digest(members[GraphMember()]) != extension.graphDigest then Loaded([GraphInvalid], None)
    else
      match foreign.graph(members[GraphMember()])
      case None => Loaded([GraphInvalid], None)
      case Some(graph) =>
        Loaded((if |graph.rows| != extension.rowCount then [GraphInvalid] else [])
               + (if graph.head != scope then [HeadMismatch] else []),
               Some(graph))
  }

  predicate Contains(graph: Graph, linkage: Linkage) {
    exists i :: 0 <= i < |graph.rows|
                && graph.rows[i].chainId == linkage.chainId && graph.rows[i].checkpoint == linkage.checkpoint
  }

  function LinkageFailures(graph: Graph, linkages: seq<Linkage>): seq<Failure> {
    if linkages == [] then []
    else (if Contains(graph, linkages[0]) then [] else [LinkageMismatch(linkages[0].event)])
         + LinkageFailures(graph, linkages[1..])
  }

  /** At most one report, for the first row that is the head or repeats an id. */
  function RowCycle(head: Id, rows: seq<Row>, seen: set<Id>): seq<Failure> {
    if rows == [] then []
    else if rows[0].chainId == head || rows[0].chainId in seen then [GraphCycle]
    else RowCycle(head, rows[1..], seen + {rows[0].chainId})
  }

  lemma {:induction false} RowCycleExactly(head: Id, rows: seq<Row>, seen: set<Id>)
    ensures RowCycle(head, rows, seen) == []
            <==> && (forall i :: 0 <= i < |rows| ==> rows[i].chainId != head && rows[i].chainId !in seen)
                 && (forall i, j :: 0 <= i < j < |rows| ==> rows[i].chainId != rows[j].chainId)
  {
    if rows != [] {
      var more := seen + {rows[0].chainId};
      RowCycleExactly(head, rows[1..], more);
      assert forall i :: 0 < i < |rows| ==> rows[i] == rows[1..][i - 1];
      if RowCycle(head, rows, seen) == [] {
        assert forall i :: 0 < i < |rows| ==> rows[i].chainId !in more;
      }
    }
  }

  // ----- Export verification and the walk -----

  datatype Visited = Visited(failures: seq<Failure>, nested: Option<Level>)

  function VerifyExport(foreign: Foreign, zip: Bytes): Report
    decreases |zip|, 4, 0
  {
    match ParseExport(foreign.crc, zip)
    case None => Fatal
    case Some(members) =>
      match foreign.manifest(members)
      case None => Fatal
      case Some(manifest) =>
        if foreign.fatal(members) then Fatal
        else
          MembersAreShorter(foreign.crc, zip);
          Checked(GraphFailures(foreign, foreign.failures(members), Archive(members, |zip|), manifest))
  }

  /** `failures` followed by what the supersession graph of one export adds. */
  function GraphFailures(foreign: Foreign, failures: seq<Failure>, archive: Archive, manifest: Manifest): seq<Failure>
    requires archive.Valid()
    decreases archive.size, 3, 0
  {
    match manifest.extension
    case None => if GraphMember() in archive.members then failures + [GraphUnbound] else failures
    case Some(extension) =>
      var loaded := LoadGraph(foreign, archive.members, extension, manifest.scope);
      if loaded.graph.None? then failures + loaded.failures
      else
        var graph := loaded.graph.value;
        var linked := failures + loaded.failures + LinkageFailures(graph, foreign.linkages(archive.members));
        Walk(foreign, linked + RowCycle(graph.head, graph.rows, {}), archive, graph.rows, {graph.head})
  }

  /** `failures` followed by what the rows of one graph report while the ids in `path` are being visited. */
  function Walk(foreign: Foreign, failures: seq<Failure>, archive: Archive, rows: seq<Row>, path: set<Id>): seq<Failure>
    requires archive.Valid()
    decreases archive.size, 2, |rows|
  {
    if rows == [] then failures
    else Walk(foreign, WalkRow(foreign, failures, archive, rows[0], path), archive, rows[1..], path)
  }

  function WalkRow(foreign: Foreign, failures: seq<Failure>, archive: Archive, row: Row, path: set<Id>): seq<Failure>
    requires archive.Valid()
    decreases archive.size, 1, 0
  {
    if row.chainId in path then failures + [GraphCycle]
    else
      var visited := Visit(foreign, archive, row);
      match visited.nested
      case None => failures + visited.failures
      case Some(next) => Walk(foreign, failures + visited.failures, next.archive, next.rows, path + {row.chainId})
  }

  /** What one row reports by itself, and the graph its bundle leads on to. */
  function Visit(foreign: Foreign, archive: Archive, row: Row): (r: Visited)
    requires archive.Valid()
    ensures r.nested.Some? ==>
              r.nested.value.archive.Valid() && r.nested.value.archive.size + LOCAL_HEADER_LEN <= archive.size
    decreases archive.size, 0, 0
  {
    if row.bundlePath.None? then Visited([], None)
    else
      var mismatch := Visited([CheckpointMismatch(row.bundlePath.value)], None);
      if row.bundlePath.value !in archive.members then mismatch
      else
        var bundle := archive.members[row.bundlePath.value];
        if !Accepted(VerifyExport(foreign, bundle)) then mismatch
        else
          match ManifestOf(foreign, bundle)
          case None => mismatch
          case Some(manifest) =>
            if manifest.headCheckpoint != row.checkpoint || manifest.scope != row.chainId then mismatch
            else NestedGraph(foreign, bundle, manifest)
  }

  function ManifestOf(foreign: Foreign, bundle: Bytes): Option<Manifest> {
    match ParseExport(foreign.crc, bundle)
    case None => None
    case Some(members) => foreign.manifest(members)
  }

  function NestedGraph(foreign: Foreign, bundle: Bytes, manifest: Manifest): (r: Visited)
    ensures r.nested.Some? ==> r.nested.value.archive.Valid() && r.nested.value.archive.size == |bundle|
  {
    if manifest.extension.None? then Visited([], None)
    else
      match ParseExport(foreign.crc, bundle)
      case None => Visited([], None)
      case Some(members) =>
        MembersAreShorter(foreign.crc, bundle);
        var loaded := LoadGraph(foreign, members, manifest.extension.value, manifest.scope);
        Visited(loaded.failures,
                if loaded.graph.None? then None
                else Some(Level(Archive(members, |bundle|), loaded.graph.value.rows)))
  }

  // ----- The verifier with its shared path and report -----

  /** The ids being visited, shared by all nested calls. */
  class TraversalPath {
    var ids: set<Id>

    constructor (head: Id)
      ensures ids == {head}
    {
      ids := {head};
    }

    method Insert(id: Id) returns (added: bool)
      modifies this
      ensures ids == old(ids) + {id} && added == (id !in old(ids))
    {
      added := id !in ids;
      ids := ids + {id};
    }

    method Remove(id: Id)
      modifies this
      ensures ids == old(ids) - {id}
    {
      ids := ids - {id};
    }
  }

  class EventFailures {
    var all: seq<Failure>

    constructor (initial: seq<Failure>)
      ensures all == initial
    {
      all := initial;
    }

    method Push(failure: Failure)
      modifies this
      ensures all == old(all) + [failure]
    {
      all := all + [failure];
    }
  }

  method VerifyExportZip(foreign: Foreign, zip: Bytes) returns (report: Report)
    ensures report == VerifyExport(foreign, zip)
    decreases |zip|, 4, 0
  {
    var members := ParseExportZip(foreign.crc, zip);
    if members.None? {
      return Fatal;
    }
    var manifest := foreign.manifest(members.value);
    if manifest.None? || foreign.fatal(members.value) {
      return Fatal;
    }
    MembersAreShorter(foreign.crc, zip);
    var failures := new EventFailures(foreign.failures(members.value));
    VerifySupersessionGraph(foreign, Archive(members.value, |zip|), manifest.value, failures);
    return Checked(failures.all);
  }

  method VerifySupersessionGraph(foreign: Foreign, archive: Archive, manifest: Manifest, report: EventFailures)
    requires archive.Valid()
    modifies report
    ensures report.all == GraphFailures(foreign, old(report.all), archive, manifest)
    decreases archive.size, 3, 0
  {
    if manifest.extension.None? {
      if GraphMember() in archive.members {
        report.Push(GraphUnbound);
      }
      return;
    }
    var loaded := LoadGraph(foreign, archive.members, manifest.extension.value, manifest.scope);
    report.all := report.all + loaded.failures;
    if loaded.graph.None? {
      return;
    }
    var graph := loaded.graph.value;
    report.all := report.all + LinkageFailures(graph, foreign.linkages(archive.members));
    report.all := report.all + RowCycle(graph.head, graph.rows, {});
    var path := new TraversalPath(graph.head);
    VerifyPredecessorBundles(foreign, archive, graph.rows, path, report);
  }

  /** Reports what the walk finds and leaves the shared path as it was. */
  method VerifyPredecessorBundles(foreign: Foreign, archive: Archive, rows: seq<Row>, path: TraversalPath,
                                  report: EventFailures)
    requires archive.Valid()
    modifies path, report
    ensures path.ids == old(path.ids)
    ensures report.all == Walk(foreign, old(report.all), archive, rows, old(path.ids))
    decreases archive.size, 2, |rows|
  {
    for i := 0 to |rows|
      invariant path.ids == old(path.ids)
      invariant Walk(foreign, report.all, archive, rows[i..], path.ids)
                == Walk(foreign, old(report.all), archive, rows, old(path.ids))
    {
      assert rows[i..][1..] == rows[i + 1..];
      var row := rows[i];
      ghost var before, open := report.all, path.ids;
      assert before + [] == before;
      assert Walk(foreign, before, archive, rows[i..], open)
          == Walk(foreign, WalkRow(foreign, before, archive, row, open), archive, rows[i + 1..], open);
      var added := path.Insert(row.chainId);
      if !added {
        report.Push(GraphCycle);
        assert report.all == WalkRow(foreign, before, archive, row, open);
        continue;
      }
      if row.bundlePath.None? {
        path.Remove(row.chainId);
        assert report.all == WalkRow(foreign, before, archive, row, open);
        continue;
      }
      var bundlePath := row.bundlePath.value;
      if bundlePath !in archive.members {
        report.Push(CheckpointMismatch(bundlePath));
        path.Remove(row.chainId);
        assert report.all == WalkRow(foreign, before, archive, row, open);
        continue;
      }
      var bundle := archive.members[bundlePath];
      var nestedReport := VerifyExportZip(foreign, bundle);
      if !Accepted(nestedReport) {
        report.Push(CheckpointMismatch(bundlePath));
        path.Remove(row.chainId);
        assert report.all == WalkRow(foreign, before, archive, row, open);
        continue;
      }
      var manifest := ManifestOf(foreign, bundle);
      if manifest.None? || manifest.value.headCheckpoint != row.checkpoint || manifest.value.scope != row.chainId {
        report.Push(CheckpointMismatch(bundlePath));
      } else {
        var nested := NestedGraph(foreign, bundle, manifest.value);
        report.all := report.all + nested.failures;
        if nested.nested.Some? {
          VerifyPredecessorBundles(foreign, nested.nested.value.archive, nested.nested.value.rows, path, report);
        }
      }
      assert report.all == WalkRow(foreign, before, archive, row, open);
      path.Remove(row.chainId);
    }
  }

  // ----- Descending trails -----

  /** Rows of ever deeper graphs: each row's bundle leads on to the graph of the next. */
  ghost predicate Trail(foreign: Foreign, archive: Archive, rows: seq<Row>, trail: seq<Row>)
    requires archive.Valid()
    decreases |trail|
  {
    && trail != [] && trail[0] in rows
    && (|trail| > 1 ==>
          var next := Visit(foreign, archive, trail[0]).nested;
          next.Some? && Trail(foreign, next.value.archive, next.value.rows, trail[1..]))
  }

  /** The trail meets an id of `path` or one it has met before. */
  ghost predicate Repeats(path: set<Id>, trail: seq<Row>) {
    exists i :: 0 <= i < |trail| && (trail[i].chainId in path || MetBefore(trail, i))
  }

  ghost predicate MetBefore(trail: seq<Row>, i: nat)
    requires i < |trail|
  {
    exists j :: 0 <= j < i && trail[j].chainId == trail[i].chainId
  }

  /** Some trail meets an id again. */
  ghost predicate Cyclic(foreign: Foreign, archive: Archive, rows: seq<Row>, path: set<Id>)
    requires archive.Valid()
  {
    exists trail :: Trail(foreign, archive, rows, trail) && Repeats(path, trail)
  }

  /** Nesting is bounded: every step of a trail costs a local header. */
  lemma {:induction false} TrailsAreShort(foreign: Foreign, archive: Archive, rows: seq<Row>, trail: seq<Row>)
    requires archive.Valid() && Trail(foreign, archive, rows, trail)
    ensures (|trail| - 1) * LOCAL_HEADER_LEN <= archive.size
    decreases |trail|
  {
    if |trail| > 1 {
      var next := Visit(foreign, archive, trail[0]).nested.value;
      TrailsAreShort(foreign, next.archive, next.rows, trail[1..]);
    }
  }

  lemma RepeatsLater(path: set<Id>, trail: seq<Row>)
    requires trail != []
    ensures Repeats(path, trail) <==> trail[0].chainId in path || Repeats(path + {trail[0].chainId}, trail[1..])
  {
  }

  lemma {:induction false} CyclicRow(foreign: Foreign, archive: Archive, row: Row, path: set<Id>)
    requires archive.Valid()
    ensures Cyclic(foreign, archive, [row], path)
            <==> || row.chainId in path
                 || var next := Visit(foreign, archive, row).nested;
                    next.Some? && Cyclic(foreign, next.value.archive, next.value.rows, path + {row.chainId})
  {
    hide Visit, Repeats;
    var next := Visit(foreign, archive, row).nested;
    RepeatsLater(path, [row]);
    if row.chainId in path {
      assert Trail(foreign, archive, [row], [row]);
    }
    if Cyclic(foreign, archive, [row], path) && row.chainId !in path {
      var trail :| Trail(foreign, archive, [row], trail) && Repeats(path, trail);
      RepeatsLater(path, trail);
      assert trail[0] == row;
      if |trail| == 1 {
        NoRepeats(path + {row.chainId}, trail[1..]);
      }
      assert Trail(foreign, next.value.archive, next.value.rows, trail[1..]);
    }
    if next.Some? && Cyclic(foreign, next.value.archive, next.value.rows, path + {row.chainId}) {
      var rest :| Trail(foreign, next.value.archive, next.value.rows, rest) && Repeats(path + {row.chainId}, rest);
      var trail := [row] + rest;
      assert trail[1..] == rest;
      RepeatsLater(path, trail);
      assert Trail(foreign, archive, [row], trail);
    }
  }

  lemma NoRepeats(path: set<Id>, trail: seq<Row>)
    requires trail == []
    ensures !Repeats(path, trail)
  {
  }

  lemma {:induction false} TrailFrom(foreign: Foreign, archive: Archive, rows: seq<Row>, trail: seq<Row>)
    requires archive.Valid() && trail != []
    ensures Trail(foreign, archive, rows, trail) <==> trail[0] in rows && Trail(foreign, archive, [trail[0]], trail)
  {
    hide Visit;
  }

  lemma {:induction false} CyclicSplit(foreign: Foreign, archive: Archive, rows: seq<Row>, path: set<Id>)
    requires archive.Valid() && rows != []
    ensures Cyclic(foreign, archive, rows, path)
            <==> Cyclic(foreign, archive, [rows[0]], path) || Cyclic(foreign, archive, rows[1..], path)
  {
    hide Visit, Repeats;
    if Cyclic(foreign, archive, rows, path) {
      var trail :| Trail(foreign, archive, rows, trail) && Repeats(path, trail);
      TrailFrom(foreign, archive, rows, trail);
      TrailFrom(foreign, archive, rows[1..], trail);
      assert trail[0] == rows[0] || trail[0] in rows[1..];
    }
    if Cyclic(foreign, archive, rows[1..], path) {
      var trail :| Trail(foreign, archive, rows[1..], trail) && Repeats(path, trail);
      TrailFrom(foreign, archive, rows, trail);
      TrailFrom(foreign, archive, rows[1..], trail);
      assert Trail(foreign, archive, rows, trail);
    }
    if Cyclic(foreign, archive, [rows[0]], path) {
      var trail :| Trail(foreign, archive, [rows[0]], trail) && Repeats(path, trail);
      TrailFrom(foreign, archive, rows, trail);
      assert trail[0] == rows[0];
      assert Trail(foreign, archive, rows, trail);
    }
  }

  lemma WalkUnfolds(foreign: Foreign, failures: seq<Failure>, archive: Archive, rows: seq<Row>, path: set<Id>)
    requires archive.Valid()
    ensures Walk(foreign, failures, archive, rows, path)
            == if rows == [] then failures
               else Walk(foreign, WalkRow(foreign, failures, archive, rows[0], path), archive, rows[1..], path)
  {
  }

  lemma {:induction false} VisitIsNotCyclic(foreign: Foreign, archive: Archive, row: Row)
    requires archive.Valid()
    ensures GraphCycle !in Visit(foreign, archive, row).failures
  {
    hide VerifyExport;
  }

  /** The shared path with its insertions and removals reports a cycle exactly when some trail meets an id again. */
  lemma {:induction false} CycleReportedExactly(foreign: Foreign, failures: seq<Failure>, archive: Archive,
                                                rows: seq<Row>, path: set<Id>)
    requires archive.Valid()
    ensures GraphCycle in Walk(foreign, failures, archive, rows, path)
            <==> GraphCycle in failures || Cyclic(foreign, archive, rows, path)
    decreases archive.size, 2, |rows|
  {
    WalkUnfolds(foreign, failures, archive, rows, path);
    if rows != [] {
      hide *;
      RowCycleReportedExactly(foreign, failures, archive, rows[0], path);
      CycleReportedExactly(foreign, WalkRow(foreign, failures, archive, rows[0], path), archive, rows[1..], path);
      CyclicSplit(foreign, archive, rows, path);
    }
  }

  lemma {:induction false} RowCycleReportedExactly(foreign: Foreign, failures: seq<Failure>, archive: Archive,
                                                   row: Row, path: set<Id>)
    requires archive.Valid()
    ensures GraphCycle in WalkRow(foreign, failures, archive, row, path)
            <==> GraphCycle in failures || Cyclic(foreign, archive, [row], path)
    decreases archive.size, 1, 0
  {
    hide Walk, Visit, Cyclic;
    CyclicRow(foreign, archive, row, path);
    if row.chainId !in path {
      VisitIsNotCyclic(foreign, archive, row);
      var visited := Visit(foreign, archive, row);
      if visited.nested.Some? {
        var next := visited.nested.value;
        CycleReportedExactly(foreign, failures + visited.failures, next.archive, next.rows, path + {row.chainId});
      }
    }
  }

  // ----- What an accepted bundle leaves to be found -----

  predicate OnlyCycles(failures: seq<Failure>) {
    forall i :: 0 <= i < |failures| ==> failures[i] == GraphCycle
  }

  lemma {:induction false} WalkKeeps(foreign: Foreign, failures: seq<Failure>, archive: Archive, rows: seq<Row>,
                                     path: set<Id>)
    requires archive.Valid()
    ensures failures <= Walk(foreign, failures, archive, rows, path)
    decreases archive.size, 2, |rows|
  {
    WalkUnfolds(foreign, failures, archive, rows, path);
    if rows != [] {
      hide *;
      WalkRowKeeps(foreign, failures, archive, rows[0], path);
      WalkKeeps(foreign, WalkRow(foreign, failures, archive, rows[0], path), archive, rows[1..], path);
    }
  }

  lemma {:induction false} WalkRowKeeps(foreign: Foreign, failures: seq<Failure>, archive: Archive, row: Row,
                                        path: set<Id>)
    requires archive.Valid()
    ensures failures <= WalkRow(foreign, failures, archive, row, path)
    decreases archive.size, 1, 0
  {
    hide Walk, Visit;
    var visited := Visit(foreign, archive, row);
    if row.chainId !in path && visited.nested.Some? {
      var next := visited.nested.value;
      WalkKeeps(foreign, failures + visited.failures, next.archive, next.rows, path + {row.chainId});
    }
  }

  /** A graph whose walk found nothing can only show cycles when it is walked below other ids. */
  lemma {:induction false} OtherPathsAddOnlyCycles(foreign: Foreign, failures: seq<Failure>, archive: Archive,
                                                   rows: seq<Row>, quiet: set<Id>, path: set<Id>)
    requires archive.Valid() && OnlyCycles(failures)
    requires Walk(foreign, [], archive, rows, quiet) == []
    ensures OnlyCycles(Walk(foreign, failures, archive, rows, path))
    decreases archive.size, 2, |rows|
  {
    WalkUnfolds(foreign, failures, archive, rows, path);
    WalkUnfolds(foreign, [], archive, rows, quiet);
    if rows != [] {
      hide *;
      WalkKeeps(foreign, WalkRow(foreign, [], archive, rows[0], quiet), archive, rows[1..], quiet);
      OtherPathsAddOnlyCyclesToRow(foreign, failures, archive, rows[0], quiet, path);
      OtherPathsAddOnlyCycles(foreign, WalkRow(foreign, failures, archive, rows[0], path), archive, rows[1..], quiet,
                              path);
    }
  }

  lemma {:induction false} OtherPathsAddOnlyCyclesToRow(foreign: Foreign, failures: seq<Failure>, archive: Archive,
                                                        row: Row, quiet: set<Id>, path: set<Id>)
    requires archive.Valid() && OnlyCycles(failures)
    requires WalkRow(foreign, [], archive, row, quiet) == []
    ensures OnlyCycles(WalkRow(foreign, failures, archive, row, path))
    decreases archive.size, 1, 0
  {
    hide Walk, Visit;
    var visited := Visit(foreign, archive, row);
    assert row.chainId !in quiet;
    if visited.nested.Some? {
      var next := visited.nested.value;
      WalkKeeps(foreign, [] + visited.failures, next.archive, next.rows, quiet + {row.chainId});
      assert visited.failures == [] && [] + visited.failures == [] && failures + visited.failures == failures;
      if row.chainId !in path {
        OtherPathsAddOnlyCycles(foreign, failures, next.archive, next.rows, quiet + {row.chainId},
                                path + {row.chainId});
      }
    }
  }

  /** An accepted bundle that binds a graph has a sound one, and a second walk through it can only find cycles. */
  lemma {:induction false} AcceptedGraph(foreign: Foreign, bundle: Bytes, path: set<Id>)
    requires Accepted(VerifyExport(foreign, bundle))
    requires ManifestOf(foreign, bundle).Some? && ManifestOf(foreign, bundle).value.extension.Some?
    ensures var nested := NestedGraph(foreign, bundle, ManifestOf(foreign, bundle).value);
            && nested.failures == [] && nested.nested.Some?
            && OnlyCycles(Walk(foreign, [], nested.nested.value.archive, nested.nested.value.rows, path))
  {
    hide Walk, LoadGraph, LinkageFailures, RowCycle;
    var members := ParseExport(foreign.crc, bundle).value;
    MembersAreShorter(foreign.crc, bundle);
    var archive, manifest := Archive(members, |bundle|), ManifestOf(foreign, bundle).value;
    var loaded := LoadGraph(foreign, members, manifest.extension.value, manifest.scope);
    if loaded.graph.None? {
      LoadFails(foreign, members, manifest.extension.value, manifest.scope);
    } else {
      var graph := loaded.graph.value;
      var before := foreign.failures(members) + loaded.failures + LinkageFailures(graph, foreign.linkages(members))
                    + RowCycle(graph.head, graph.rows, {});
      WalkKeeps(foreign, before, archive, graph.rows, {graph.head});
      assert before == [];
      OtherPathsAddOnlyCycles(foreign, [], archive, graph.rows, {graph.head}, path);
    }
  }

  lemma LoadFails(foreign: Foreign, members: Members, extension: Extension, scope: Id)
    requires LoadGraph(foreign, members, extension, scope).graph.None?
    ensures LoadGraph(foreign, members, extension, scope).failures == [GraphInvalid]
  {
  }

  /** A row never reports more than that its bundle does not match: a matching bundle's graph has no defect left. */
  lemma {:induction false} RowsReportOnlyMismatches(foreign: Foreign, archive: Archive, row: Row)
    requires archive.Valid()
    ensures var failures := Visit(foreign, archive, row).failures;
            failures == [] || (row.bundlePath.Some? && failures == [CheckpointMismatch(row.bundlePath.value)])
  {
    hide VerifyExport, ManifestOf, LoadGraph;
    if row.bundlePath.Some? && row.bundlePath.value in archive.members {
      var bundle := archive.members[row.bundlePath.value];
      if Accepted(VerifyExport(foreign, bundle)) && ManifestOf(foreign, bundle).Some?
         && ManifestOf(foreign, bundle).value.extension.Some? {
        AcceptedGraph(foreign, bundle, {});
      }
    }
  }

  // ----- Silence -----

  /** The last row of the trail reports nothing by itself. */
  ghost predicate EndsSoundly(foreign: Foreign, archive: Archive, trail: seq<Row>)
    requires archive.Valid()
    decreases |trail|
  {
    trail != [] ==>
      var visited := Visit(foreign, archive, trail[0]);
      if |trail| == 1 then visited.failures == []
      else
        visited.nested.Some? && EndsSoundly(foreign, visited.nested.value.archive, trail[1..])
  }

  /** Some trail leads to a row that reports something by itself. */
  ghost predicate Faulty(foreign: Foreign, archive: Archive, rows: seq<Row>)
    requires archive.Valid()
  {
    exists trail :: Trail(foreign, archive, rows, trail) && !EndsSoundly(foreign, archive, trail)
  }

  lemma {:induction false} FaultyRow(foreign: Foreign, archive: Archive, row: Row)
    requires archive.Valid()
    ensures var visited := Visit(foreign, archive, row);
            Faulty(foreign, archive, [row])
            <==> || visited.failures != []
                 || (visited.nested.Some? && Faulty(foreign, visited.nested.value.archive, visited.nested.value.rows))
  {
    hide Visit;
    var visited := Visit(foreign, archive, row);
    if visited.failures != [] {
      assert Trail(foreign, archive, [row], [row]);
    }
    if Faulty(foreign, archive, [row]) && visited.failures == [] {
      var trail :| Trail(foreign, archive, [row], trail) && !EndsSoundly(foreign, archive, trail);
      assert trail[0] == row;
      assert Trail(foreign, visited.nested.value.archive, visited.nested.value.rows, trail[1..]);
    }
    if visited.nested.Some? && Faulty(foreign, visited.nested.value.archive, visited.nested.value.rows) {
      var next := visited.nested.value;
      var rest :| Trail(foreign, next.archive, next.rows, rest) && !EndsSoundly(foreign, next.archive, rest);
      assert ([row] + rest)[1..] == rest;
      assert Trail(foreign, archive, [row], [row] + rest);
    }
  }

  lemma {:induction false} FaultySplit(foreign: Foreign, archive: Archive, rows: seq<Row>)
    requires archive.Valid() && rows != []
    ensures Faulty(foreign, archive, rows)
            <==> Faulty(foreign, archive, [rows[0]]) || Faulty(foreign, archive, rows[1..])
  {
    hide Visit, EndsSoundly;
    if Faulty(foreign, archive, rows) {
      var trail :| Trail(foreign, archive, rows, trail) && !EndsSoundly(foreign, archive, trail);
      TrailFrom(foreign, archive, rows, trail);
      TrailFrom(foreign, archive, rows[1..], trail);
      assert trail[0] == rows[0] || trail[0] in rows[1..];
    }
    if Faulty(foreign, archive, rows[1..]) {
      var trail :| Trail(foreign, archive, rows[1..], trail) && !EndsSoundly(foreign, archive, trail);
      TrailFrom(foreign, archive, rows, trail);
      TrailFrom(foreign, archive, rows[1..], trail);
      assert Trail(foreign, archive, rows, trail);
    }
    if Faulty(foreign, archive, [rows[0]]) {
      var trail :| Trail(foreign, archive, [rows[0]], trail) && !EndsSoundly(foreign, archive, trail);
      TrailFrom(foreign, archive, rows, trail);
      assert Trail(foreign, archive, rows, trail);
    }
  }

  lemma {:induction false} NothingCyclicOrFaulty(foreign: Foreign, archive: Archive, path: set<Id>)
    requires archive.Valid()
    ensures !Cyclic(foreign, archive, [], path) && !Faulty(foreign, archive, [])
  {
    hide Visit;
  }

  /** The walk is silent exactly when no trail meets an id again and none leads to a row that reports something. */
  lemma {:induction false} SilentExactly(foreign: Foreign, failures: seq<Failure>, archive: Archive, rows: seq<Row>,
                                         path: set<Id>)
    requires archive.Valid()
    ensures Walk(foreign, failures, archive, rows, path) == []
            <==> failures == [] && !Cyclic(foreign, archive, rows, path) && !Faulty(foreign, archive, rows)
    decreases archive.size, 2, |rows|
  {
    WalkUnfolds(foreign, failures, archive, rows, path);
    if rows == [] {
      NothingCyclicOrFaulty(foreign, archive, path);
    } else {
      hide *;
      RowSilentExactly(foreign, failures, archive, rows[0], path);
      SilentExactly(foreign, WalkRow(foreign, failures, archive, rows[0], path), archive, rows[1..], path);
      CyclicSplit(foreign, archive, rows, path);
      FaultySplit(foreign, archive, rows);
    }
  }

  lemma {:induction false} RowSilentExactly(foreign: Foreign, failures: seq<Failure>, archive: Archive, row: Row,
                                            path: set<Id>)
    requires archive.Valid()
    ensures WalkRow(foreign, failures, archive, row, path) == []
            <==> failures == [] && !Cyclic(foreign, archive, [row], path) && !Faulty(foreign, archive, [row])
    decreases archive.size, 1, 0
  {
    hide Walk, Visit, Cyclic, Faulty;
    CyclicRow(foreign, archive, row, path);
    FaultyRow(foreign, archive, row);
    if row.chainId !in path {
      var visited := Visit(foreign, archive, row);
      if visited.nested.Some? {
        var next := visited.nested.value;
        SilentExactly(foreign, failures + visited.failures, next.archive, next.rows, path + {row.chainId});
      }
    }
  }

  lemma {:induction false} LinkagesContained(graph: Graph, linkages: seq<Linkage>)
    ensures LinkageFailures(graph, linkages) == []
            <==> forall i :: 0 <= i < |linkages| ==> Contains(graph, linkages[i])
  {
    if linkages != [] {
      LinkagesContained(graph, linkages[1..]);
      assert forall i :: 0 < i < |linkages| ==> linkages[i] == linkages[1..][i - 1];
    }
  }

  /** The graph an export binds names its scope as head and is of the promised length. */
  ghost predicate Binds(foreign: Foreign, members: Members, extension: Extension, scope: Id, graph: Graph) {
    Holds(foreign, members, extension, graph) && |graph.rows| == extension.rowCount && graph.head == scope
  }

  /** The member of this name has the promised digest and reads as the graph. */
  ghost predicate Holds(foreign: Foreign, members: Members, extension: Extension, graph: Graph) {
    var name := Ascii("064-supersession-graph.json");
    name in members && foreign.digest(members[name]) == extension.graphDigest
    && foreign.graph(members[name]) == Some(graph)
  }

  /** Every chain id is named once, every superseded chain is named, and every trail ends soundly at a new chain id. */
  ghost predicate SoundGraph(foreign: Foreign, archive: Archive, graph: Graph)
    requires archive.Valid()
  {
    && (forall linkage :: linkage in foreign.linkages(archive.members) ==> Contains(graph, linkage))
    && (forall i :: 0 <= i < |graph.rows| ==> graph.rows[i].chainId != graph.head)
    && (forall i, j :: 0 <= i < j < |graph.rows| ==> graph.rows[i].chainId != graph.rows[j].chainId)
    && !Cyclic(foreign, archive, graph.rows, {graph.head})
    && !Faulty(foreign, archive, graph.rows)
  }

  /** What accepting an export says about its supersession graph, at every depth. */
  lemma {:induction false} GraphAcceptedExactly(foreign: Foreign, failures: seq<Failure>, archive: Archive,
                                                manifest: Manifest)
    requires archive.Valid()
    ensures GraphFailures(foreign, failures, archive, manifest) == []
            <==> && failures == []
                 && match manifest.extension
                    case None => GraphMember() !in archive.members
                    case Some(extension) =>
                      exists graph :: Binds(foreign, archive.members, extension, manifest.scope, graph)
                                      && SoundGraph(foreign, archive, graph)
  {
    hide Walk, LinkageFailures, RowCycle, Contains, Cyclic, Faulty;
    if manifest.extension.Some? {
      var loaded := LoadGraph(foreign, archive.members, manifest.extension.value, manifest.scope);
      if loaded.graph.Some? {
        var graph, linkages := loaded.graph.value, foreign.linkages(archive.members);
        LinkagesContained(graph, linkages);
        RowCycleExactly(graph.head, graph.rows, {});
        SilentExactly(foreign, failures + loaded.failures + LinkageFailures(graph, linkages)
                               + RowCycle(graph.head, graph.rows, {}), archive, graph.rows, {graph.head});
        assert (forall linkage :: linkage in linkages ==> Contains(graph, linkage))
          <==> forall i :: 0 <= i < |linkages| ==> Contains(graph, linkages[i]);
        assert loaded.failures == []
          <==> Binds(foreign, archive.members, manifest.extension.value, manifest.scope, graph);
      }
    }
  }

  // ----- What nested acceptance already settles -----

  /** The graph below a row was accepted with the row's own id as head. */
  lemma {:induction false} NestedIsSound(foreign: Foreign, archive: Archive, row: Row)
    requires archive.Valid() && Visit(foreign, archive, row).nested.Some?
    ensures var next := Visit(foreign, archive, row).nested.value;
            !Cyclic(foreign, next.archive, next.rows, {row.chainId}) && !Faulty(foreign, next.archive, next.rows)
  {
    hide Walk, GraphFailures, LinkageFailures, RowCycle, Contains, Cyclic, Faulty;
    var bundle := archive.members[row.bundlePath.value];
    var members, manifest := ParseExport(foreign.crc, bundle).value, ManifestOf(foreign, bundle).value;
    MembersAreShorter(foreign.crc, bundle);
    GraphAcceptedExactly(foreign, foreign.failures(members), Archive(members, |bundle|), manifest);
  }

  /** The row's bundle, if any, is accepted by itself and is the one the row speaks of. */
  predicate BundleMatches(foreign: Foreign, archive: Archive, row: Row)
    requires archive.Valid()
  {
    row.bundlePath.Some? ==>
      && row.bundlePath.value in archive.members
      && var bundle := archive.members[row.bundlePath.value];
         && Accepted(VerifyExport(foreign, bundle)) && ManifestOf(foreign, bundle).Some?
         && var manifest := ManifestOf(foreign, bundle).value;
            manifest.headCheckpoint == row.checkpoint && manifest.scope == row.chainId
  }

  lemma {:induction false} SilentRow(foreign: Foreign, archive: Archive, row: Row)
    requires archive.Valid()
    ensures Visit(foreign, archive, row).failures == [] <==> BundleMatches(foreign, archive, row)
  {
    hide VerifyExport, ManifestOf, LoadGraph;
    if BundleMatches(foreign, archive, row) && row.bundlePath.Some? {
      var bundle := archive.members[row.bundlePath.value];
      if ManifestOf(foreign, bundle).value.extension.Some? {
        AcceptedGraph(foreign, bundle, {});
      }
    }
  }

  /** A fault is always one of the rows at hand: deeper ones were found when their bundles were verified. */
  lemma {:induction false} FaultyExactly(foreign: Foreign, archive: Archive, rows: seq<Row>)
    requires archive.Valid()
    ensures Faulty(foreign, archive, rows) <==> exists i :: 0 <= i < |rows| && !BundleMatches(foreign, archive, rows[i])
  {
    hide Visit, EndsSoundly, BundleMatches;
    if Faulty(foreign, archive, rows) {
      var trail :| Trail(foreign, archive, rows, trail) && !EndsSoundly(foreign, archive, trail);
      TrailFrom(foreign, archive, rows, trail);
      FaultyRow(foreign, archive, trail[0]);
      SilentRow(foreign, archive, trail[0]);
      if Visit(foreign, archive, trail[0]).nested.Some? {
        NestedIsSound(foreign, archive, trail[0]);
      }
    }
    if exists i :: 0 <= i < |rows| && !BundleMatches(foreign, archive, rows[i]) {
      var i :| 0 <= i < |rows| && !BundleMatches(foreign, archive, rows[i]);
      SilentRow(foreign, archive, rows[i]);
      FaultyRow(foreign, archive, rows[i]);
      var trail :| Trail(foreign, archive, [rows[i]], trail) && !EndsSoundly(foreign, archive, trail);
      TrailFrom(foreign, archive, [rows[i]], trail);
      TrailFrom(foreign, archive, rows, trail);
    }
  }

  /** Some trail leads to one of these ids. */
  ghost predicate Returns(foreign: Foreign, archive: Archive, rows: seq<Row>, path: set<Id>)
    requires archive.Valid()
  {
    exists trail :: Trail(foreign, archive, rows, trail) && Meets(path, trail)
  }

  ghost predicate Meets(path: set<Id>, trail: seq<Row>) {
    exists i :: 0 <= i < |trail| && trail[i].chainId in path
  }

  lemma RepeatsOrMeets(path: set<Id>, trail: seq<Row>)
    requires trail != [] && Repeats(path, trail) && !Repeats({trail[0].chainId}, trail[1..])
    ensures Meets(path, trail)
  {
    var rest := trail[1..];
    if trail[0].chainId !in path {
      RepeatsLater(path, trail);
      var i :| 0 <= i < |rest| && (rest[i].chainId in path + {trail[0].chainId} || MetBefore(rest, i));
      assert trail[i + 1].chainId in path;
    }
  }

  /** A cycle always leads back to an id that was being visited before: ids met on the way cannot come again. */
  lemma {:induction false} CyclicExactly(foreign: Foreign, archive: Archive, rows: seq<Row>, path: set<Id>)
    requires archive.Valid()
    ensures Cyclic(foreign, archive, rows, path) <==> Returns(foreign, archive, rows, path)
  {
    hide Visit;
    if Cyclic(foreign, archive, rows, path) {
      var trail :| Trail(foreign, archive, rows, trail) && Repeats(path, trail);
      if |trail| > 1 {
        var next := Visit(foreign, archive, trail[0]).nested.value;
        NestedIsSound(foreign, archive, trail[0]);
        assert Trail(foreign, next.archive, next.rows, trail[1..]);
      }
      RepeatsOrMeets(path, trail);
    }
    if Returns(foreign, archive, rows, path) {
      var trail :| Trail(foreign, archive, rows, trail) && Meets(path, trail);
      assert Repeats(path, trail);
    }
  }

  lemma {:induction false} HeadIsNoRow(foreign: Foreign, archive: Archive, graph: Graph)
    requires archive.Valid()
    ensures !Returns(foreign, archive, graph.rows, {graph.head})
            ==> forall i :: 0 <= i < |graph.rows| ==> graph.rows[i].chainId != graph.head
  {
    hide Visit;
    forall i | 0 <= i < |graph.rows| && graph.rows[i].chainId == graph.head
      ensures Returns(foreign, archive, graph.rows, {graph.head})
    {
      assert Trail(foreign, archive, graph.rows, [graph.rows[i]]);
      assert Meets({graph.head}, [graph.rows[i]]);
    }
  }

  /** Some row of the graph names the superseded chain and its checkpoint. */
  ghost predicate Names(graph: Graph, linkage: Linkage) {
    exists i :: 0 <= i < |graph.rows| && graph.rows[i].chainId == linkage.chainId
                && graph.rows[i].checkpoint == linkage.checkpoint
  }

  /** Every superseded chain is named, no chain twice, every bundle matches its row, and no trail leads to the head. */
  ghost predicate FittingGraph(foreign: Foreign, archive: Archive, graph: Graph)
    requires archive.Valid()
  {
    && (forall linkage :: linkage in foreign.linkages(archive.members) ==> Names(graph, linkage))
    && (forall i, j :: 0 <= i < j < |graph.rows| ==> graph.rows[i].chainId != graph.rows[j].chainId)
    && (forall i :: 0 <= i < |graph.rows| ==> BundleMatches(foreign, archive, graph.rows[i]))
    && !Returns(foreign, archive, graph.rows, {graph.head})
  }

  /** Acceptance of an export's graph: of the deeper graphs it only says that none of their rows is the head. */
  lemma {:induction false} GraphFitsExactly(foreign: Foreign, failures: seq<Failure>, archive: Archive,
                                            manifest: Manifest)
    requires archive.Valid()
    ensures GraphFailures(foreign, failures, archive, manifest) == []
            <==> && failures == []
                 && match manifest.extension
                    case None => Ascii("064-supersession-graph.json") !in archive.members
                    case Some(extension) =>
                      exists graph :: Binds(foreign, archive.members, extension, manifest.scope, graph)
                                      && FittingGraph(foreign, archive, graph)
  {
    assert GraphMember() == Ascii("064-supersession-graph.json");
    hide GraphFailures, SoundGraph, FittingGraph, Ascii, Binds;
    GraphAcceptedExactly(foreign, failures, archive, manifest);
    forall graph
      ensures SoundGraph(foreign, archive, graph) <==> FittingGraph(foreign, archive, graph)
    {
      SoundIsFitting(foreign, archive, graph);
    }
  }

  lemma {:induction false} SoundIsFitting(foreign: Foreign, archive: Archive, graph: Graph)
    requires archive.Valid()
    ensures SoundGraph(foreign, archive, graph) <==> FittingGraph(foreign, archive, graph)
  {
    assert forall linkage :: Names(graph, linkage) <==> Contains(graph, linkage);
    hide Contains, Names, Cyclic, Faulty, BundleMatches, Returns;
    FaultyExactly(foreign, archive, graph.rows);
    CyclicExactly(foreign, archive, graph.rows, {graph.head});
    HeadIsNoRow(foreign, archive, graph);
  }

  // ----- Which archives are accepted -----

  /** The archive's members and manifest are read, nothing else is wrong with them, and its graph fits. */
  ghost predicate Acceptable(foreign: Foreign, zip: Bytes, members: Members, manifest: Manifest) {
    && ParseExport(foreign.crc, zip) == Some(members) && foreign.manifest(members) == Some(manifest)
    && !foreign.fatal(members) && foreign.failures(members) == []
    && Archive(members, |zip|).Valid()
    && match manifest.extension
       case None => Ascii("064-supersession-graph.json") !in members
       case Some(extension) =>
         exists graph :: Binds(foreign, members, extension, manifest.scope, graph)
                         && FittingGraph(foreign, Archive(members, |zip|), graph)
  }

  lemma {:induction false} ArchiveAcceptedExactly(foreign: Foreign, zip: Bytes)
    ensures Accepted(VerifyExport(foreign, zip))
            <==> exists members, manifest :: Acceptable(foreign, zip, members, manifest)
  {
    hide GraphFailures, FittingGraph, Binds, Ascii, Archive.Valid;
    var members := ParseExport(foreign.crc, zip);
    if members.Some? && foreign.manifest(members.value).Some? && !foreign.fatal(members.value) {
      MembersAreShorter(foreign.crc, zip);
      GraphFitsExactly(foreign, foreign.failures(members.value), Archive(members.value, |zip|),
                       foreign.manifest(members.value).value);
      assert Accepted(VerifyExport(foreign, zip))
        <==> Acceptable(foreign, zip, members.value, foreign.manifest(members.value).value);
    }
  }

  /** A report is fatal exactly for archives that cannot be read or fail for good; else other failures come first. */
  lemma {:induction false} FatalExactly(foreign: Foreign, zip: Bytes)
    ensures VerifyExport(foreign, zip) == Fatal
            <==> match ParseExport(foreign.crc, zip)
                 case None => true
                 case Some(members) => foreign.manifest(members).None? || foreign.fatal(members)
    ensures VerifyExport(foreign, zip).Checked? ==>
              foreign.failures(ParseExport(foreign.crc, zip).value) <= VerifyExport(foreign, zip).failures
  {
    hide GraphFailures;
    var members := ParseExport(foreign.crc, zip);
    if members.Some? && foreign.manifest(members.value).Some? && !foreign.fatal(members.value) {
      MembersAreShorter(foreign.crc, zip);
      GraphFailuresKeep(foreign, foreign.failures(members.value), Archive(members.value, |zip|),
                        foreign.manifest(members.value).value);
    }
  }

  lemma {:induction false} GraphFailuresKeep(foreign: Foreign, failures: seq<Failure>, archive: Archive,
                                             manifest: Manifest)
    requires archive.Valid()
    ensures failures <= GraphFailures(foreign, failures, archive, manifest)
  {
    hide Walk, LinkageFailures, RowCycle;
    if manifest.extension.Some? {
      var loaded := LoadGraph(foreign, archive.members, manifest.extension.value, manifest.scope);
      if loaded.graph.Some? {
        var graph := loaded.graph.value;
        WalkKeeps(foreign, failures + loaded.failures + LinkageFailures(graph, foreign.linkages(archive.members))
                           + RowCycle(graph.head, graph.rows, {}), archive, graph.rows, {graph.head});
      }
    }
  }

  // ----- What is reported -----

  lemma {:induction false} WalkAppends(foreign: Foreign, failures: seq<Failure>, archive: Archive, rows: seq<Row>,
                                       path: set<Id>)
    requires archive.Valid()
    ensures Walk(foreign, failures, archive, rows, path) == failures + Walk(foreign, [], archive, rows, path)
    decreases archive.size, 2, |rows|
  {
    WalkUnfolds(foreign, failures, archive, rows, path);
    WalkUnfolds(foreign, [], archive, rows, path);
    if rows != [] {
      hide *;
      var first := WalkRow(foreign, [], archive, rows[0], path);
      WalkRowAppends(foreign, failures, archive, rows[0], path);
      WalkAppends(foreign, failures + first, archive, rows[1..], path);
      WalkAppends(foreign, first, archive, rows[1..], path);
    } else {
      assert failures + [] == failures;
    }
  }

  lemma {:induction false} WalkRowAppends(foreign: Foreign, failures: seq<Failure>, archive: Archive, row: Row,
                                          path: set<Id>)
    requires archive.Valid()
    ensures WalkRow(foreign, failures, archive, row, path) == failures + WalkRow(foreign, [], archive, row, path)
    decreases archive.size, 1, 0
  {
    hide Walk, Visit;
    var visited := Visit(foreign, archive, row);
    assert [] + visited.failures == visited.failures;
    if row.chainId !in path && visited.nested.Some? {
      var next := visited.nested.value;
      WalkAppends(foreign, failures + visited.failures, next.archive, next.rows, path + {row.chainId});
      WalkAppends(foreign, visited.failures, next.archive, next.rows, path + {row.chainId});
    }
  }

  /** A row leads to the report of a cycle, or of its own bundle, or only to cycles further down. */
  lemma {:induction false} RowReports(foreign: Foreign, archive: Archive, row: Row, path: set<Id>)
    requires archive.Valid()
    ensures row.chainId in path ==> WalkRow(foreign, [], archive, row, path) == [GraphCycle]
    ensures row.chainId !in path && !BundleMatches(foreign, archive, row) ==>
              row.bundlePath.Some?
              && WalkRow(foreign, [], archive, row, path) == [CheckpointMismatch(row.bundlePath.value)]
    ensures row.chainId !in path && BundleMatches(foreign, archive, row) ==>
              OnlyCycles(WalkRow(foreign, [], archive, row, path))
  {
    hide Walk, Visit, BundleMatches;
    SilentRow(foreign, archive, row);
    RowsReportOnlyMismatches(foreign, archive, row);
    var visited := Visit(foreign, archive, row);
    assert [] + visited.failures == visited.failures;
    if row.chainId !in path && visited.nested.Some? {
      var next := visited.nested.value;
      NestedOnlyIfSilent(foreign, archive, row);
      NestedIsSound(foreign, archive, row);
      SilentExactly(foreign, [], next.archive, next.rows, {row.chainId});
      OtherPathsAddOnlyCycles(foreign, [], next.archive, next.rows, {row.chainId}, path + {row.chainId});
    }
  }

  lemma {:induction false} NestedOnlyIfSilent(foreign: Foreign, archive: Archive, row: Row)
    requires archive.Valid() && Visit(foreign, archive, row).nested.Some?
    ensures Visit(foreign, archive, row).failures == []
  {
    hide VerifyExport, LoadGraph;
    AcceptedGraph(foreign, archive.members[row.bundlePath.value], {});
  }

  /** A bundle is reported exactly if a row that is walked names it and does not match it. */
  lemma {:induction false} MismatchReportedExactly(foreign: Foreign, archive: Archive, rows: seq<Row>, path: set<Id>,
                                                   bundlePath: Bytes)
    requires archive.Valid()
    ensures CheckpointMismatch(bundlePath) in Walk(foreign, [], archive, rows, path)
            <==> exists i :: 0 <= i < |rows| && rows[i].bundlePath == Some(bundlePath) && rows[i].chainId !in path
                             && !BundleMatches(foreign, archive, rows[i])
    ensures forall f :: f in Walk(foreign, [], archive, rows, path) ==> f == GraphCycle || f.CheckpointMismatch?
    decreases |rows|
  {
    WalkUnfolds(foreign, [], archive, rows, path);
    if rows != [] {
      hide Walk, WalkRow, BundleMatches;
      var first := WalkRow(foreign, [], archive, rows[0], path);
      RowReports(foreign, archive, rows[0], path);
      WalkAppends(foreign, first, archive, rows[1..], path);
      MismatchReportedExactly(foreign, archive, rows[1..], path, bundlePath);
      assert forall i :: 0 < i < |rows| ==> rows[i] == rows[1..][i - 1];
    }
  }

  lemma {:induction false} LinkagesReported(graph: Graph, linkages: seq<Linkage>, f: Failure)
    ensures f in LinkageFailures(graph, linkages)
            <==> exists linkage :: linkage in linkages && f == LinkageMismatch(linkage.event) && !Names(graph, linkage)
  {
    if linkages != [] {
      LinkagesReported(graph, linkages[1..], f);
      assert Names(graph, linkages[0]) <==> Contains(graph, linkages[0]);
      assert linkages == [linkages[0]] + linkages[1..];
    }
  }

  /** Why a failure is reported of an export's graph. */
  ghost predicate Complains(foreign: Foreign, archive: Archive, manifest: Manifest, f: Failure)
    requires archive.Valid()
  {
    match manifest.extension
    case None => f == GraphUnbound && Ascii("064-supersession-graph.json") in archive.members
    case Some(extension) =>
      if forall graph :: !Holds(foreign, archive.members, extension, graph) then f == GraphInvalid
      else exists graph :: Holds(foreign, archive.members, extension, graph)
                           && GraphComplains(foreign, archive, manifest, extension, graph, f)
  }

  ghost predicate GraphComplains(foreign: Foreign, archive: Archive, manifest: Manifest, extension: Extension,
                                 graph: Graph, f: Failure)
    requires archive.Valid()
  {
    match f
    case GraphInvalid => |graph.rows| != extension.rowCount
    case HeadMismatch => graph.head != manifest.scope
    case LinkageMismatch(event) =>
      exists linkage :: linkage in foreign.linkages(archive.members) && linkage.event == event && !Names(graph, linkage)
    case GraphCycle =>
      || (exists i, j :: 0 <= i < j < |graph.rows| && graph.rows[i].chainId == graph.rows[j].chainId)
      || Returns(foreign, archive, graph.rows, {graph.head})
    case CheckpointMismatch(bundlePath) =>
      exists i :: 0 <= i < |graph.rows| && graph.rows[i].bundlePath == Some(bundlePath)
                  && graph.rows[i].chainId != graph.head && !BundleMatches(foreign, archive, graph.rows[i])
    case _ => false
  }

  lemma {:induction false} CycleInRows(foreign: Foreign, archive: Archive, graph: Graph)
    requires archive.Valid()
    ensures GraphCycle in RowCycle(graph.head, graph.rows, {})
            || GraphCycle in Walk(foreign, [], archive, graph.rows, {graph.head})
            <==> || (exists i, j :: 0 <= i < j < |graph.rows| && graph.rows[i].chainId == graph.rows[j].chainId)
                 || Returns(foreign, archive, graph.rows, {graph.head})
  {
    hide Walk, RowCycle, Cyclic, Returns;
    RowCycleExactly(graph.head, graph.rows, {});
    OnlyGraphCycle(graph.head, graph.rows, {});
    CycleReportedExactly(foreign, [], archive, graph.rows, {graph.head});
    CyclicExactly(foreign, archive, graph.rows, {graph.head});
    HeadIsNoRow(foreign, archive, graph);
  }

  lemma {:induction false} OnlyGraphCycle(head: Id, rows: seq<Row>, seen: set<Id>)
    ensures RowCycle(head, rows, seen) == [] || RowCycle(head, rows, seen) == [GraphCycle]
  {
    if rows != [] {
      OnlyGraphCycle(head, rows[1..], seen + {rows[0].chainId});
    }
  }

  /** A failure is in the report exactly if another check has put it there or the graph gives reason for it. */
  lemma {:induction false} ReportedExactly(foreign: Foreign, failures: seq<Failure>, archive: Archive,
                                           manifest: Manifest, f: Failure)
    requires archive.Valid()
    ensures f in GraphFailures(foreign, failures, archive, manifest)
            <==> f in failures || Complains(foreign, archive, manifest, f)
  {
    assert GraphMember() == Ascii("064-supersession-graph.json");
    hide Walk, LinkageFailures, RowCycle, GraphComplains, Ascii;
    if manifest.extension.Some? {
      var extension := manifest.extension.value;
      var loaded := LoadGraph(foreign, archive.members, extension, manifest.scope);
      if loaded.graph.None? {
        assert forall graph :: !Holds(foreign, archive.members, extension, graph);
      } else {
        var graph := loaded.graph.value;
        assert Holds(foreign, archive.members, extension, graph);
        assert forall other :: Holds(foreign, archive.members, extension, other) ==> other == graph;
        LoadedReported(foreign, failures, archive, manifest, extension, graph, f);
      }
    }
  }

  lemma {:induction false} LoadedReported(foreign: Foreign, failures: seq<Failure>, archive: Archive,
                                          manifest: Manifest, extension: Extension, graph: Graph, f: Failure)
    requires archive.Valid() && manifest.extension == Some(extension)
    requires LoadGraph(foreign, archive.members, extension, manifest.scope).graph == Some(graph)
    ensures f in GraphFailures(foreign, failures, archive, manifest)
            <==> f in failures || GraphComplains(foreign, archive, manifest, extension, graph, f)
  {
    hide Walk, LinkageFailures, RowCycle, BundleMatches, Returns, Names;
    var loaded := LoadGraph(foreign, archive.members, extension, manifest.scope);
    var linkages := LinkageFailures(graph, foreign.linkages(archive.members));
    var cycle := RowCycle(graph.head, graph.rows, {});
    var walked := Walk(foreign, [], archive, graph.rows, {graph.head});
    WalkAppends(foreign, failures + loaded.failures + linkages + cycle, archive, graph.rows, {graph.head});
    LinkagesReported(graph, foreign.linkages(archive.members), f);
    OnlyGraphCycle(graph.head, graph.rows, {});
    CycleInRows(foreign, archive, graph);
    MismatchReportedExactly(foreign, archive, graph.rows, {graph.head},
                            if f.CheckpointMismatch? then f.bundlePath else []);
    assert f in GraphFailures(foreign, failures, archive, manifest)
      <==> f in failures || f in loaded.failures || f in linkages || f in cycle || f in walked;
    assert f in loaded.failures
      <==> || (f == GraphInvalid && |graph.rows| != extension.rowCount)
           || (f == HeadMismatch && graph.head != manifest.scope);
  }

  // ----- The members of an archive -----

  /** `name` is what follows the first slash of the path. */
  ghost predicate Named(path: Bytes, name: Bytes) {
    exists root: Bytes :: path == root + [0x2f] + name && 0x2f !in root
  }

  lemma FirstKept(root: Bytes, name: Bytes)
    ensures root != [] && 0x2f !in root ==> (root + [0x2f] + name)[0] != 0x2f
  {
    assert root != [] ==> (root + [0x2f] + name)[0] == root[0];
  }

  lemma {:induction false} RelativeNameExactly(path: Bytes, name: Bytes)
    ensures RelativeName(path) == Some(name) <==> Named(path, name)
  {
    if path != [] && path[0] == SLASH {
      assert path == [] + [0x2f] + path[1..];
      if Named(path, name) {
        var root: Bytes :| path == root + [0x2f] + name && 0x2f !in root;
        FirstKept(root, name);
        assert path[1..] == name;
      }
    } else if path != [] {
      RelativeNameExactly(path[1..], name);
      if Named(path[1..], name) {
        var root: Bytes :| path[1..] == root + [0x2f] + name && 0x2f !in root;
        assert path == ([path[0]] + root) + [0x2f] + name;
      }
      if Named(path, name) {
        var root: Bytes :| path == root + [0x2f] + name && 0x2f !in root;
        assert root != [] && path[1..] == root[1..] + [0x2f] + name;
      }
    }
  }

  ghost predicate HasName(path: Bytes) {
    exists name :: Named(path, name)
  }

  /** `entries[i]` is the last entry of this name. */
  ghost predicate LastNamed(entries: seq<Entry>, i: nat, name: Bytes) {
    i < |entries| && Named(entries[i].path, name) && forall j :: i < j < |entries| ==> !Named(entries[j].path, name)
  }

  lemma {:induction false} CollectExactly(members: Members, entries: seq<Entry>, name: Bytes)
    ensures Collect(members, entries).Some? <==> forall i :: 0 <= i < |entries| ==> HasName(entries[i].path)
    ensures Collect(members, entries).Some? ==>
              var r := Collect(members, entries).value;
              && (name in r <==> name in members || exists i :: 0 <= i < |entries| && Named(entries[i].path, name))
              && (forall i: nat :: LastNamed(entries, i, name) ==> r[name] == entries[i].bytes)
              && (name in members && (forall i :: 0 <= i < |entries| ==> !Named(entries[i].path, name)) ==>
                    r[name] == members[name])
    decreases |entries|
  {
    hide Named;
    if entries != [] {
      var first := RelativeName(entries[0].path);
      RelativeNameExactly(entries[0].path, name);
      assert forall i :: 0 < i < |entries| ==> entries[i] == entries[1..][i - 1];
      if first.Some? {
        RelativeNameExactly(entries[0].path, first.value);
        CollectExactly(members[first.value := entries[0].bytes], entries[1..], name);
        assert forall i: nat :: i > 0 && LastNamed(entries, i, name) ==> LastNamed(entries[1..], i - 1, name);
      } else {
        NoName(entries[0].path);
      }
    }
  }

  lemma NoName(path: Bytes)
    requires RelativeName(path).None?
    ensures !HasName(path)
  {
    forall name
      ensures !Named(path, name)
    {
      RelativeNameExactly(path, name);
    }
  }

  /** An archive is read exactly if its entries are and have names; each name then holds its last entry's bytes. */
  lemma {:induction false} MembersExactly(crc: Crc, zip: Bytes)
    ensures ParseExport(crc, zip).Some?
            <==> Entries(crc, zip).Ok? && forall entry :: entry in Entries(crc, zip).value ==> HasName(entry.path)
    ensures ParseExport(crc, zip).Some? ==>
              var entries, members := Entries(crc, zip).value, ParseExport(crc, zip).value;
              && (forall name :: name in members <==> exists i: nat :: LastNamed(entries, i, name))
              && (forall i: nat, name :: LastNamed(entries, i, name) ==> members[name] == entries[i].bytes)
  {
    hide Entries, Named;
    if Entries(crc, zip).Ok? {
      var entries := Entries(crc, zip).value;
      CollectExactly(map[], entries, []);
      if ParseExport(crc, zip).Some? {
        forall name
          ensures name in ParseExport(crc, zip).value <==> exists i: nat :: LastNamed(entries, i, name)
          ensures forall i: nat :: LastNamed(entries, i, name) ==>
                                     ParseExport(crc, zip).value[name] == entries[i].bytes
        {
          CollectExactly(map[], entries, name);
          if i :| 0 <= i < |entries| && Named(entries[i].path, name) {
            SomeLast(entries, name, i);
          }
        }
      }
    }
  }

  lemma {:induction false} SomeLast(entries: seq<Entry>, name: Bytes, i: nat)
    requires i < |entries| && Named(entries[i].path, name)
    ensures exists last: nat :: LastNamed(entries, last, name)
    decreases |entries| - i
  {
    hide Named;
    if !LastNamed(entries, i, name) {
      var j :| i < j < |entries| && Named(entries[j].path, name);
      SomeLast(entries, name, j);
    }
  }
}
