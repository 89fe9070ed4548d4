/** The final pass over the evidence of destroyed keys: groups by key, then each key's uses after its destruction. */
module Erasure {
  import opened EventSet
  import opened Wrappers

  datatype Problem =
    | RegistryClassMismatch
    | DestroyedAtConflict
    | KeyClassConflict
    | PostErasureUse
    | PostErasureWrap
    | AttestationInvalid

  /** `hash` locates the problem; a malformed attestation is not located. */
  datatype Finding = Finding(problem: Problem, hash: Hash)

  datatype Tally = Tally(kid: Kid, index: nat, attested: bool, uses: nat, wraps: nat, problems: seq<Problem>)

  datatype Report = Report(findings: seq<Finding>, tallies: seq<Tally>)

  /** For each key, what its first evidence says, and which keys have evidence that says otherwise. */
  datatype Groups = Groups(
    findings: seq<Finding>,
    destroyedAt: map<Kid, Timestamp>,
    keyClass: map<Kid, string>,
    timeConflicts: set<Kid>,
    classConflicts: set<Kid>)

  function NoHash(): Hash {
    seq(32, i => 0)
  }

  /** Keys that sign events are of class "signing"; others have the class they are registered with. */
  function RegisteredClass(s: Setting, kid: Kid): Option<string> {
    if kid in s.registry then Some("signing")
    else if kid in s.nonSigning then Some(s.nonSigning[kid])
    else None
  }

  predicate Misclassified(s: Setting, e: Evidence) {
    RegisteredClass(s, e.erasure.kid).Some? && RegisteredClass(s, e.erasure.kid).value != e.erasure.keyClass
  }

  predicate Tracked(keyClass: string) {
    keyClass == "signing" || keyClass == "subject"
  }

  function Find(findings: seq<Finding>, found: bool, problem: Problem, hash: Hash): seq<Finding> {
    if found then findings + [Finding(problem, hash)] else findings
  }

  predicate NewConflict<T(==)>(first: map<Kid, T>, conflicts: set<Kid>, kid: Kid, value: T) {
    kid in first && first[kid] != value && kid !in conflicts
  }

  function KeepFirst<T>(first: map<Kid, T>, kid: Kid, value: T): map<Kid, T> {
    if kid in first then first else first[kid := value]
  }

  function GroupRow(s: Setting, g: Groups, e: Evidence): Groups {
    var kid, at, keyClass := e.erasure.kid, e.erasure.destroyedAt, e.erasure.keyClass;
    var otherTime, otherClass :=
      NewConflict(g.destroyedAt, g.timeConflicts, kid, at), NewConflict(g.keyClass, g.classConflicts, kid, keyClass);
    var f := Find(g.findings, Misclassified(s, e), RegistryClassMismatch, e.hash);
    var f := Find(f, otherTime, DestroyedAtConflict, e.hash);
    Groups(
      Find(f, otherClass, KeyClassConflict, e.hash),
      KeepFirst(g.destroyedAt, kid, at),
      KeepFirst(g.keyClass, kid, keyClass),
      if otherTime then g.timeConflicts + {kid} else g.timeConflicts,
      if otherClass then g.classConflicts + {kid} else g.classConflicts)
  }

  function Grouped(s: Setting, evidence: seq<Evidence>, i: nat): Groups
    requires i <= |evidence|
  {
    if i == 0 then Groups([], map[], map[], {}, {}) else GroupRow(s, Grouped(s, evidence, i - 1), evidence[i - 1])
  }

  function Untallied(e: Evidence): Tally {
    Tally(e.erasure.kid, e.index, e.erasure.attested, 0, 0, [])
  }

  function AllUntallied(evidence: seq<Evidence>, i: nat): (r: seq<Tally>)
    requires i <= |evidence|
    ensures |r| == i && forall k :: 0 <= k < i ==> r[k] == Untallied(evidence[k])
  {
    if i == 0 then [] else AllUntallied(evidence, i - 1) + [Untallied(evidence[i - 1])]
  }

  datatype Walk = Walk(findings: seq<Finding>, tally: Tally)

  function CountUse(w: Walk, event: Summary): Walk {
    if event.signingKid != w.tally.kid then w
    else
      Walk(w.findings + [Finding(PostErasureUse, event.hash)],
           w.tally.(uses := w.tally.uses + 1, problems := w.tally.problems + [PostErasureUse]))
  }

  function CountWrap(w: Walk, event: Summary): Walk {
    if w.tally.kid !in event.wrapRecipients then w
    else
      Walk(w.findings + [Finding(PostErasureWrap, event.hash)],
           w.tally.(wraps := w.tally.wraps + 1, problems := w.tally.problems + [PostErasureWrap]))
  }

  function WalkEvent(w: Walk, event: Summary, at: Timestamp): Walk {
    if !Before(at, event.authoredAt) then w else CountWrap(CountUse(w, event), event)
  }

  function WalkChain(w: Walk, chain: seq<Summary>, at: Timestamp, i: nat): (r: Walk)
    requires i <= |chain|
    ensures r.tally.kid == w.tally.kid
  {
    if i == 0 then w else WalkEvent(WalkChain(w, chain, at, i - 1), chain[i - 1], at)
  }

  /** Conflicting groups and keys of other classes are not followed along the chain. */
  function Follow(g: Groups, chain: seq<Summary>, w: Walk): Walk {
    var kid := w.tally.kid;
    if kid in g.timeConflicts then w.(tally := w.tally.(problems := w.tally.problems + [DestroyedAtConflict]))
    else if kid in g.classConflicts then w.(tally := w.tally.(problems := w.tally.problems + [KeyClassConflict]))
    else if kid !in g.keyClass || !Tracked(g.keyClass[kid]) || kid !in g.destroyedAt then w
    else WalkChain(w, chain, g.destroyedAt[kid], |chain|)
  }

  function Followed(g: Groups, chain: seq<Summary>, report: Report, i: nat): (r: Report)
    requires i <= |report.tallies|
    ensures |r.tallies| == |report.tallies| && forall k :: i <= k < |r.tallies| ==> r.tallies[k] == report.tallies[k]
  {
    if i == 0 then report
    else
      var r := Followed(g, chain, report, i - 1);
      var w := Follow(g, chain, Walk(r.findings, r.tallies[i - 1]));
      Report(w.findings, r.tallies[i - 1 := w.tally])
  }

  function Unattested(findings: seq<Finding>, tallies: seq<Tally>, i: nat): seq<Finding>
    requires i <= |tallies|
  {
    if i == 0 then findings
    else Find(Unattested(findings, tallies, i - 1), !tallies[i - 1].attested, AttestationInvalid, NoHash())
  }

  function Finalized(s: Setting, evidence: seq<Evidence>, chain: seq<Summary>): Report {
    var g := Grouped(s, evidence, |evidence|);
    var r := Followed(g, chain, Report(g.findings, AllUntallied(evidence, |evidence|)), |evidence|);
    Report(Unattested(r.findings, r.tallies, |r.tallies|), r.tallies)
  }

  method FinalizeErasureEvidence(s: Setting, evidence: seq<Evidence>, chain: seq<Summary>) returns (report: Report)
    ensures report == Finalized(s, evidence, chain)
  {
    var findings: seq<Finding> := [];
    var destroyedAt: map<Kid, Timestamp>, keyClass: map<Kid, string> := map[], map[];
    var timeConflicts: set<Kid>, classConflicts: set<Kid> := {}, {};
    var tallies: seq<Tally> := [];
    for i := 0 to |evidence|
      invariant Groups(findings, destroyedAt, keyClass, timeConflicts, classConflicts) == Grouped(s, evidence, i)
      invariant tallies == AllUntallied(evidence, i)
    {
      var e := evidence[i];
      var kid := e.erasure.kid;
      findings := Find(findings, Misclassified(s, e), RegistryClassMismatch, e.hash);
      var otherTime := NewConflict(destroyedAt, timeConflicts, kid, e.erasure.destroyedAt);
      findings := Find(findings, otherTime, DestroyedAtConflict, e.hash);
      destroyedAt := KeepFirst(destroyedAt, kid, e.erasure.destroyedAt);
      timeConflicts := if otherTime then timeConflicts + {kid} else timeConflicts;
      var otherClass := NewConflict(keyClass, classConflicts, kid, e.erasure.keyClass);
      findings := Find(findings, otherClass, KeyClassConflict, e.hash);
      keyClass := KeepFirst(keyClass, kid, e.erasure.keyClass);
      classConflicts := if otherClass then classConflicts + {kid} else classConflicts;
      tallies := tallies + [Untallied(e)];
    }
    ghost var g, before := Grouped(s, evidence, |evidence|), Report(findings, tallies);
    for k := 0 to |evidence|
      invariant |tallies| == |evidence| && Report(findings, tallies) == Followed(g, chain, before, k)
    {
      var w := Walk(findings, tallies[k]);
      var kid := w.tally.kid;
      if kid in timeConflicts {
        w := w.(tally := w.tally.(problems := w.tally.problems + [DestroyedAtConflict]));
      } else if kid in classConflicts {
        w := w.(tally := w.tally.(problems := w.tally.problems + [KeyClassConflict]));
      } else if kid in keyClass && Tracked(keyClass[kid]) && kid in destroyedAt {
        var at := destroyedAt[kid];
        for i := 0 to |chain|
          invariant w == WalkChain(Walk(findings, tallies[k]), chain, at, i)
        {
          if Before(at, chain[i].authoredAt) {
            w := CountUse(w, chain[i]);
            w := CountWrap(w, chain[i]);
          }
        }
      }
      findings := w.findings;
      tallies := tallies[k := w.tally];
    }
    ghost var followed := findings;
    for k := 0 to |tallies|
      invariant findings == Unattested(followed, tallies, k)
    {
      if !tallies[k].attested {
        findings := findings + [Finding(AttestationInvalid, NoHash())];
      }
    }
    return Report(findings, tallies);
  }

  // ----- Groups -----

  /** The first evidence about a key. */
  function First(evidence: seq<Evidence>, i: nat, kid: Kid): (r: Option<Evidence>)
    requires i <= |evidence|
    ensures r.Some? ==> r.value.erasure.kid == kid && r.value in evidence[..i]
    ensures r.None? ==> forall k :: 0 <= k < i ==> evidence[k].erasure.kid != kid
  {
    if i == 0 then None
    else
      var earlier := First(evidence, i - 1, kid);
      assert forall e :: e in evidence[..i - 1] ==> e in evidence[..i];
      assert evidence[i - 1] == evidence[..i][i - 1];
      if earlier.Some? then earlier else if evidence[i - 1].erasure.kid == kid then Some(evidence[i - 1]) else None
  }

  /** Two pieces of evidence disagree about when the key was destroyed. */
  ghost predicate TimeVaries(evidence: seq<Evidence>, i: nat, kid: Kid)
    requires i <= |evidence|
  {
    exists a, b :: 0 <= a < i && 0 <= b < i && evidence[a].erasure.kid == kid && evidence[b].erasure.kid == kid
                   && evidence[a].erasure.destroyedAt != evidence[b].erasure.destroyedAt
  }

  /** Two pieces of evidence disagree about the class of the key. */
  ghost predicate ClassVaries(evidence: seq<Evidence>, i: nat, kid: Kid)
    requires i <= |evidence|
  {
    exists a, b :: 0 <= a < i && 0 <= b < i && evidence[a].erasure.kid == kid && evidence[b].erasure.kid == kid
                   && evidence[a].erasure.keyClass != evidence[b].erasure.keyClass
  }

  lemma TimeVariesNext(evidence: seq<Evidence>, i: nat, kid: Kid)
    requires 0 < i <= |evidence|
    ensures var e, first := evidence[i - 1].erasure, First(evidence, i - 1, kid);
            TimeVaries(evidence, i, kid)
            <==> || TimeVaries(evidence, i - 1, kid)
                 || (e.kid == kid && first.Some? && first.value.erasure.destroyedAt != e.destroyedAt)
  {
  }

  lemma ClassVariesNext(evidence: seq<Evidence>, i: nat, kid: Kid)
    requires 0 < i <= |evidence|
    ensures var e, first := evidence[i - 1].erasure, First(evidence, i - 1, kid);
            ClassVaries(evidence, i, kid)
            <==> || ClassVaries(evidence, i - 1, kid)
                 || (e.kid == kid && first.Some? && first.value.erasure.keyClass != e.keyClass)
  {
  }

  /** A group keeps what its first evidence says, and is a conflict exactly when it is not constant. */
  lemma {:induction false} GroupsExactly(s: Setting, evidence: seq<Evidence>, i: nat, kid: Kid)
    requires i <= |evidence|
    ensures var g, first := Grouped(s, evidence, i), First(evidence, i, kid);
            && (kid in g.destroyedAt <==> first.Some?) && (kid in g.keyClass <==> first.Some?)
            && (first.Some? ==> g.destroyedAt[kid] == first.value.erasure.destroyedAt)
            && (first.Some? ==> g.keyClass[kid] == first.value.erasure.keyClass)
            && (kid in g.timeConflicts <==> TimeVaries(evidence, i, kid))
            && (kid in g.classConflicts <==> ClassVaries(evidence, i, kid))
  {
    if i > 0 {
      hide TimeVaries, ClassVaries, Misclassified, Find;
      GroupsExactly(s, evidence, i - 1, kid);
      TimeVariesNext(evidence, i, kid);
      ClassVariesNext(evidence, i, kid);
    }
  }

  /** Where one kind of problem was found. */
  function Located(findings: seq<Finding>, problem: Problem): seq<Hash> {
    if findings == [] then []
    else
      var earlier, last := Located(findings[..|findings| - 1], problem), findings[|findings| - 1];
      if last.problem == problem then earlier + [last.hash] else earlier
  }

  lemma LocatedNext(findings: seq<Finding>, found: bool, kind: Problem, hash: Hash, problem: Problem)
    ensures Located(Find(findings, found, kind, hash), problem)
            == Located(findings, problem) + if found && kind == problem then [hash] else []
  {
  }

  /** The last of the first `i` rows is the first to disagree about the time of its key. */
  ghost predicate TimeTurn(evidence: seq<Evidence>, i: nat)
    requires 0 < i <= |evidence|
  {
    var kid := evidence[i - 1].erasure.kid;
    TimeVaries(evidence, i, kid) && !TimeVaries(evidence, i - 1, kid)
  }

  ghost function TimeTurns(evidence: seq<Evidence>, i: nat): seq<Hash>
    requires i <= |evidence|
  {
    if i == 0 then []
    else TimeTurns(evidence, i - 1) + if TimeTurn(evidence, i) then [evidence[i - 1].hash] else []
  }

  /** The last of the first `i` rows is the first to disagree about the class of its key. */
  ghost predicate ClassTurn(evidence: seq<Evidence>, i: nat)
    requires 0 < i <= |evidence|
  {
    var kid := evidence[i - 1].erasure.kid;
    ClassVaries(evidence, i, kid) && !ClassVaries(evidence, i - 1, kid)
  }

  ghost function ClassTurns(evidence: seq<Evidence>, i: nat): seq<Hash>
    requires i <= |evidence|
  {
    if i == 0 then []
    else ClassTurns(evidence, i - 1) + if ClassTurn(evidence, i) then [evidence[i - 1].hash] else []
  }

  lemma {:induction false} RowFindings(s: Setting, g: Groups, e: Evidence, problem: Problem)
    requires problem == DestroyedAtConflict || problem == KeyClassConflict
    ensures var otherTime := NewConflict(g.destroyedAt, g.timeConflicts, e.erasure.kid, e.erasure.destroyedAt);
            var otherClass := NewConflict(g.keyClass, g.classConflicts, e.erasure.kid, e.erasure.keyClass);
            var found := if problem == DestroyedAtConflict then otherTime else otherClass;
            Located(GroupRow(s, g, e).findings, problem)
            == Located(g.findings, problem) + if found then [e.hash] else []
  {
    hide Misclassified, Find, Located, NewConflict;
    var otherTime := NewConflict(g.destroyedAt, g.timeConflicts, e.erasure.kid, e.erasure.destroyedAt);
    var otherClass := NewConflict(g.keyClass, g.classConflicts, e.erasure.kid, e.erasure.keyClass);
    var f0 := Find(g.findings, Misclassified(s, e), RegistryClassMismatch, e.hash);
    var f1 := Find(f0, otherTime, DestroyedAtConflict, e.hash);
    LocatedNext(g.findings, Misclassified(s, e), RegistryClassMismatch, e.hash, problem);
    LocatedNext(f0, otherTime, DestroyedAtConflict, e.hash, problem);
    LocatedNext(f1, otherClass, KeyClassConflict, e.hash, problem);
  }

  lemma {:induction false} TurnsAreNew(s: Setting, evidence: seq<Evidence>, i: nat)
    requires 0 < i <= |evidence|
    ensures var g, e := Grouped(s, evidence, i - 1), evidence[i - 1];
            && (NewConflict(g.destroyedAt, g.timeConflicts, e.erasure.kid, e.erasure.destroyedAt)
                <==> TimeTurn(evidence, i))
            && (NewConflict(g.keyClass, g.classConflicts, e.erasure.kid, e.erasure.keyClass)
                <==> ClassTurn(evidence, i))
  {
    hide TimeVaries, ClassVaries, Grouped, First;
    var kid := evidence[i - 1].erasure.kid;
    GroupsExactly(s, evidence, i - 1, kid);
    TimeVariesNext(evidence, i, kid);
    ClassVariesNext(evidence, i, kid);
  }

  lemma NothingGrouped(s: Setting, evidence: seq<Evidence>)
    ensures var g := Grouped(s, evidence, 0);
            && Located(g.findings, DestroyedAtConflict) == TimeTurns(evidence, 0)
            && Located(g.findings, KeyClassConflict) == ClassTurns(evidence, 0)
            && |TimeTurns(evidence, 0)| == |g.timeConflicts| && |ClassTurns(evidence, 0)| == |g.classConflicts|
  {
  }

  lemma {:induction false} RowConflicts(s: Setting, g: Groups, e: Evidence)
    ensures GroupRow(s, g, e).timeConflicts
            == if NewConflict(g.destroyedAt, g.timeConflicts, e.erasure.kid, e.erasure.destroyedAt)
               then g.timeConflicts + {e.erasure.kid} else g.timeConflicts
    ensures GroupRow(s, g, e).classConflicts
            == if NewConflict(g.keyClass, g.classConflicts, e.erasure.kid, e.erasure.keyClass)
               then g.classConflicts + {e.erasure.kid} else g.classConflicts
  {
    hide NewConflict, Find, KeepFirst, Misclassified;
  }

  lemma {:induction false} RowGrouped(s: Setting, evidence: seq<Evidence>, i: nat)
    requires 0 < i <= |evidence|
    ensures Grouped(s, evidence, i) == GroupRow(s, Grouped(s, evidence, i - 1), evidence[i - 1])
    ensures TimeTurns(evidence, i)
            == TimeTurns(evidence, i - 1) + if TimeTurn(evidence, i) then [evidence[i - 1].hash] else []
    ensures ClassTurns(evidence, i)
            == ClassTurns(evidence, i - 1) + if ClassTurn(evidence, i) then [evidence[i - 1].hash] else []
  {
    hide GroupRow, TimeTurn, ClassTurn;
  }

  /** Conflicts about the time are reported once for each key, at the row that first disagrees. */
  lemma {:induction false} TimeConflictsReportedOnce(s: Setting, evidence: seq<Evidence>, i: nat)
    requires i <= |evidence|
    ensures var g := Grouped(s, evidence, i);
            && Located(g.findings, DestroyedAtConflict) == TimeTurns(evidence, i)
            && |TimeTurns(evidence, i)| == |g.timeConflicts|
  {
    hide *;
    if i == 0 {
      NothingGrouped(s, evidence);
    } else {
      TimeConflictsReportedOnce(s, evidence, i - 1);
      var g, e := Grouped(s, evidence, i - 1), evidence[i - 1];
      TurnsAreNew(s, evidence, i);
      RowFindings(s, g, e, DestroyedAtConflict);
      RowConflicts(s, g, e);
      RowGrouped(s, evidence, i);
      NewIsNotIn(g.destroyedAt, g.timeConflicts, e.erasure.kid, e.erasure.destroyedAt);
    }
  }

  /** Conflicts about the class are reported once for each key, at the row that first disagrees. */
  lemma {:induction false} ClassConflictsReportedOnce(s: Setting, evidence: seq<Evidence>, i: nat)
    requires i <= |evidence|
    ensures var g := Grouped(s, evidence, i);
            && Located(g.findings, KeyClassConflict) == ClassTurns(evidence, i)
            && |ClassTurns(evidence, i)| == |g.classConflicts|
  {
    hide *;
    if i == 0 {
      NothingGrouped(s, evidence);
    } else {
      ClassConflictsReportedOnce(s, evidence, i - 1);
      var g, e := Grouped(s, evidence, i - 1), evidence[i - 1];
      TurnsAreNew(s, evidence, i);
      RowFindings(s, g, e, KeyClassConflict);
      RowConflicts(s, g, e);
      RowGrouped(s, evidence, i);
      NewIsNotIn(g.keyClass, g.classConflicts, e.erasure.kid, e.erasure.keyClass);
    }
  }

  lemma NewIsNotIn<T>(first: map<Kid, T>, conflicts: set<Kid>, kid: Kid, value: T)
    ensures NewConflict(first, conflicts, kid, value) ==> kid !in conflicts && |conflicts + {kid}| == |conflicts| + 1
  {
  }

  // ----- Counters -----

  /** The positions of events signed with the key after its destruction. */
  ghost function Uses(chain: seq<Summary>, i: nat, kid: Kid, at: Timestamp): set<nat>
    requires i <= |chain|
  {
    set p: nat | p < i && Before(at, chain[p].authoredAt) && chain[p].signingKid == kid
  }

  /** The positions of events whose content key was wrapped for the key after its destruction. */
  ghost function Wraps(chain: seq<Summary>, i: nat, kid: Kid, at: Timestamp): set<nat>
    requires i <= |chain|
  {
    set p: nat | p < i && Before(at, chain[p].authoredAt) && kid in chain[p].wrapRecipients
  }

  lemma {:induction false} UsesNext(chain: seq<Summary>, i: nat, kid: Kid, at: Timestamp)
    requires 0 < i <= |chain|
    ensures var used := Before(at, chain[i - 1].authoredAt) && chain[i - 1].signingKid == kid;
            |Uses(chain, i, kid, at)| == |Uses(chain, i - 1, kid, at)| + if used then 1 else 0
  {
    hide Before;
    var used := Before(at, chain[i - 1].authoredAt) && chain[i - 1].signingKid == kid;
    assert Uses(chain, i, kid, at) == Uses(chain, i - 1, kid, at) + if used then {i - 1} else {};
  }

  lemma {:induction false} WrapsNext(chain: seq<Summary>, i: nat, kid: Kid, at: Timestamp)
    requires 0 < i <= |chain|
    ensures var wrapped := Before(at, chain[i - 1].authoredAt) && kid in chain[i - 1].wrapRecipients;
            |Wraps(chain, i, kid, at)| == |Wraps(chain, i - 1, kid, at)| + if wrapped then 1 else 0
  {
    hide Before;
    var wrapped := Before(at, chain[i - 1].authoredAt) && kid in chain[i - 1].wrapRecipients;
    assert Wraps(chain, i, kid, at) == Wraps(chain, i - 1, kid, at) + if wrapped then {i - 1} else {};
  }

  lemma {:induction false} WalkCounts(w: Walk, chain: seq<Summary>, at: Timestamp, i: nat)
    requires i <= |chain|
    ensures var r := WalkChain(w, chain, at, i);
            && r.tally.uses == w.tally.uses + |Uses(chain, i, w.tally.kid, at)|
            && r.tally.wraps == w.tally.wraps + |Wraps(chain, i, w.tally.kid, at)|
            && |r.findings| == |w.findings| + |Uses(chain, i, w.tally.kid, at)| + |Wraps(chain, i, w.tally.kid, at)|
            && r.tally.attested == w.tally.attested
  {
    if i > 0 {
      hide Uses, Wraps, Before;
      WalkCounts(w, chain, at, i - 1);
      UsesNext(chain, i, w.tally.kid, at);
      WrapsNext(chain, i, w.tally.kid, at);
    } else {
      assert Uses(chain, 0, w.tally.kid, at) == {} && Wraps(chain, 0, w.tally.kid, at) == {};
    }
  }

  /** A key that is followed along the chain: a signing or subject key whose evidence agrees. */
  ghost predicate IsFollowed(evidence: seq<Evidence>, e: Evidence) {
    && !TimeVaries(evidence, |evidence|, e.erasure.kid) && !ClassVaries(evidence, |evidence|, e.erasure.kid)
    && (e.erasure.keyClass == "signing" || e.erasure.keyClass == "subject")
  }

  lemma {:induction false} FollowsExactly(s: Setting, evidence: seq<Evidence>, chain: seq<Summary>, k: nat,
                                          findings: seq<Finding>)
    requires k < |evidence|
    ensures var w, e := Walk(findings, Untallied(evidence[k])), evidence[k];
            var r := Follow(Grouped(s, evidence, |evidence|), chain, w);
            if IsFollowed(evidence, e) then r == WalkChain(w, chain, e.erasure.destroyedAt, |chain|)
            else
              && r.findings == findings && r.tally.uses == 0 && r.tally.wraps == 0
              && r.tally.attested == e.erasure.attested
  {
    hide Grouped, WalkChain;
    var e := evidence[k];
    var first := First(evidence, |evidence|, e.erasure.kid);
    GroupsExactly(s, evidence, |evidence|, e.erasure.kid);
    var f :| 0 <= f < |evidence| && evidence[..|evidence|][f] == first.value;
    assert evidence[f] == first.value;
  }

  lemma {:induction false} FollowedExactly(s: Setting, evidence: seq<Evidence>, chain: seq<Summary>, report: Report,
                                           i: nat, k: nat)
    requires k < i <= |evidence| && report.tallies == AllUntallied(evidence, |evidence|)
    ensures var g := Grouped(s, evidence, |evidence|);
            var tally := Followed(g, chain, report, i).tallies[k];
            && tally.attested == evidence[k].erasure.attested
            && tally.uses == (if !IsFollowed(evidence, evidence[k]) then 0
                              else |Uses(chain, |chain|, evidence[k].erasure.kid, evidence[k].erasure.destroyedAt)|)
            && tally.wraps == (if !IsFollowed(evidence, evidence[k]) then 0
                               else |Wraps(chain, |chain|, evidence[k].erasure.kid, evidence[k].erasure.destroyedAt)|)
    decreases i
  {
    hide Grouped, IsFollowed, Follow, Uses, Wraps;
    var g := Grouped(s, evidence, |evidence|);
    if k < i - 1 {
      FollowedExactly(s, evidence, chain, report, i - 1, k);
    } else {
      var findings := Followed(g, chain, report, k).findings;
      FollowsExactly(s, evidence, chain, k, findings);
      WalkCounts(Walk(findings, Untallied(evidence[k])), chain, evidence[k].erasure.destroyedAt, |chain|);
    }
  }

  /** Of each followed key the counters give the numbers of later uses and wraps; those of others stay at zero. */
  lemma {:induction false} CountersExact(s: Setting, evidence: seq<Evidence>, chain: seq<Summary>, k: nat)
    requires k < |evidence|
    ensures var e, tallies := evidence[k].erasure, Finalized(s, evidence, chain).tallies;
            && |tallies| == |evidence|
            && tallies[k].uses
               == (if IsFollowed(evidence, evidence[k]) then |Uses(chain, |chain|, e.kid, e.destroyedAt)| else 0)
            && tallies[k].wraps
               == (if IsFollowed(evidence, evidence[k]) then |Wraps(chain, |chain|, e.kid, e.destroyedAt)| else 0)
  {
    hide Grouped, IsFollowed, Uses, Wraps, Followed;
    var g := Grouped(s, evidence, |evidence|);
    FollowedExactly(s, evidence, chain, Report(g.findings, AllUntallied(evidence, |evidence|)), |evidence|, k);
  }

  // ----- Silence -----

  /** The key is registered, to sign events or otherwise, under another class than the evidence says. */
  predicate OtherClass(s: Setting, e: Evidence) {
    var kid, keyClass := e.erasure.kid, e.erasure.keyClass;
    if kid in s.registry then keyClass != "signing" else kid in s.nonSigning && s.nonSigning[kid] != keyClass
  }

  lemma MisclassifiedExactly(s: Setting, e: Evidence)
    ensures Misclassified(s, e) <==> OtherClass(s, e)
  {
  }

  /** The evidence agrees with the registry. */
  ghost predicate WellClassified(s: Setting, evidence: seq<Evidence>, i: nat)
    requires i <= |evidence|
  {
    forall k :: 0 <= k < i ==> !OtherClass(s, evidence[k])
  }

  /** All evidence about a key agrees. */
  ghost predicate Agreeing(evidence: seq<Evidence>, i: nat)
    requires i <= |evidence|
  {
    forall kid :: !TimeVaries(evidence, i, kid) && !ClassVaries(evidence, i, kid)
  }

  lemma RowSilent(s: Setting, g: Groups, e: Evidence)
    ensures GroupRow(s, g, e).findings == []
            <==> && g.findings == [] && !Misclassified(s, e)
                 && !NewConflict(g.destroyedAt, g.timeConflicts, e.erasure.kid, e.erasure.destroyedAt)
                 && !NewConflict(g.keyClass, g.classConflicts, e.erasure.kid, e.erasure.keyClass)
  {
  }

  lemma {:induction false} AgreeingNext(evidence: seq<Evidence>, i: nat)
    requires 0 < i <= |evidence|
    ensures Agreeing(evidence, i) <==> Agreeing(evidence, i - 1) && !TimeTurn(evidence, i) && !ClassTurn(evidence, i)
  {
    hide TimeVaries, ClassVaries, First;
    var kid := evidence[i - 1].erasure.kid;
    if !Agreeing(evidence, i) {
      var other :| TimeVaries(evidence, i, other) || ClassVaries(evidence, i, other);
      TimeVariesNext(evidence, i, other);
      ClassVariesNext(evidence, i, other);
      assert other != kid ==> TimeVaries(evidence, i - 1, other) || ClassVaries(evidence, i - 1, other);
    } else {
      assert !TimeVaries(evidence, i, kid) && !ClassVaries(evidence, i, kid);
      var before := i - 1;
      forall other
        ensures !TimeVaries(evidence, before, other) && !ClassVaries(evidence, before, other)
      {
        assert !TimeVaries(evidence, i, other) && !ClassVaries(evidence, i, other);
        TimeVariesNext(evidence, i, other);
        ClassVariesNext(evidence, i, other);
      }
    }
  }

  lemma AgreeingOnNothing(evidence: seq<Evidence>)
    ensures Agreeing(evidence, 0)
  {
  }

  lemma {:induction false} GroupsSilent(s: Setting, evidence: seq<Evidence>, i: nat)
    requires i <= |evidence|
    ensures Grouped(s, evidence, i).findings == [] <==> WellClassified(s, evidence, i) && Agreeing(evidence, i)
  {
    hide Misclassified, NewConflict, GroupRow, TimeTurn, ClassTurn, First, TimeVaries, ClassVaries;
    if i == 0 {
      AgreeingOnNothing(evidence);
    } else {
      GroupsSilent(s, evidence, i - 1);
      RowSilent(s, Grouped(s, evidence, i - 1), evidence[i - 1]);
      MisclassifiedExactly(s, evidence[i - 1]);
      TurnsAreNew(s, evidence, i);
      AgreeingNext(evidence, i);
    }
  }

  /** After its destruction a followed key neither signs nor receives anything. */
  ghost predicate Unused(evidence: seq<Evidence>, chain: seq<Summary>, e: Evidence) {
    IsFollowed(evidence, e) ==>
      && Uses(chain, |chain|, e.erasure.kid, e.erasure.destroyedAt) == {}
      && Wraps(chain, |chain|, e.erasure.kid, e.erasure.destroyedAt) == {}
  }

  lemma {:induction false} FollowSilent(s: Setting, evidence: seq<Evidence>, chain: seq<Summary>, k: nat,
                                        findings: seq<Finding>)
    requires k < |evidence|
    ensures var w := Walk(findings, Untallied(evidence[k]));
            Follow(Grouped(s, evidence, |evidence|), chain, w).findings == []
            <==> findings == [] && Unused(evidence, chain, evidence[k])
  {
    hide Grouped, IsFollowed, Follow, Uses, Wraps, WalkChain;
    var e := evidence[k].erasure;
    FollowsExactly(s, evidence, chain, k, findings);
    WalkCounts(Walk(findings, Untallied(evidence[k])), chain, e.destroyedAt, |chain|);
    assert |Uses(chain, |chain|, e.kid, e.destroyedAt)| == 0 <==> Uses(chain, |chain|, e.kid, e.destroyedAt) == {};
    assert |Wraps(chain, |chain|, e.kid, e.destroyedAt)| == 0 <==> Wraps(chain, |chain|, e.kid, e.destroyedAt) == {};
  }

  lemma {:induction false} FollowedSilent(s: Setting, evidence: seq<Evidence>, chain: seq<Summary>, report: Report,
                                          i: nat)
    requires i <= |evidence| && report.tallies == AllUntallied(evidence, |evidence|)
    ensures Followed(Grouped(s, evidence, |evidence|), chain, report, i).findings == []
            <==> report.findings == [] && forall k :: 0 <= k < i ==> Unused(evidence, chain, evidence[k])
  {
    hide Grouped, Unused, Follow, AllUntallied, Untallied;
    if i > 0 {
      FollowedSilent(s, evidence, chain, report, i - 1);
      var before := Followed(Grouped(s, evidence, |evidence|), chain, report, i - 1);
      FollowSilent(s, evidence, chain, i - 1, before.findings);
    }
  }

  lemma {:induction false} AttestedSilent(findings: seq<Finding>, tallies: seq<Tally>, i: nat)
    requires i <= |tallies|
    ensures Unattested(findings, tallies, i) == []
            <==> findings == [] && forall k :: 0 <= k < i ==> tallies[k].attested
  {
    if i > 0 {
      AttestedSilent(findings, tallies, i - 1);
    }
  }

  /** Nothing is found exactly when the evidence is consistent and attested and no destroyed key is used again. */
  lemma {:induction false} SilentExactly(s: Setting, evidence: seq<Evidence>, chain: seq<Summary>)
    ensures Finalized(s, evidence, chain).findings == []
            <==> && WellClassified(s, evidence, |evidence|) && Agreeing(evidence, |evidence|)
                 && (forall k :: 0 <= k < |evidence| ==> evidence[k].erasure.attested)
                 && (forall k :: 0 <= k < |evidence| ==> Unused(evidence, chain, evidence[k]))
  {
    hide Grouped, Unused, WellClassified, Agreeing, IsFollowed, Uses, Wraps, Followed, Unattested;
    var g := Grouped(s, evidence, |evidence|);
    var before := Report(g.findings, AllUntallied(evidence, |evidence|));
    var r := Followed(g, chain, before, |evidence|);
    GroupsSilent(s, evidence, |evidence|);
    FollowedSilent(s, evidence, chain, before, |evidence|);
    AttestedSilent(r.findings, r.tallies, |r.tallies|);
    forall k | 0 <= k < |evidence|
      ensures r.tallies[k].attested == evidence[k].erasure.attested
    {
      FollowedExactly(s, evidence, chain, before, |evidence|, k);
    }
  }

  /** With no findings, a destroyed signing or subject key is not used by any event authored after its destruction. */
  lemma {:induction false} DestroyedKeysStayUnused(s: Setting, evidence: seq<Evidence>, chain: seq<Summary>, k: nat,
                                                   p: nat)
    requires Finalized(s, evidence, chain).findings == []
    requires k < |evidence|
    requires evidence[k].erasure.keyClass == "signing" || evidence[k].erasure.keyClass == "subject"
    requires p < |chain| && Before(evidence[k].erasure.destroyedAt, chain[p].authoredAt)
    ensures chain[p].signingKid != evidence[k].erasure.kid
    ensures evidence[k].erasure.kid !in chain[p].wrapRecipients
  {
    hide Finalized, TimeVaries, ClassVaries, Before;
    SilentExactly(s, evidence, chain);
    var e := evidence[k].erasure;
    assert !TimeVaries(evidence, |evidence|, e.kid) && !ClassVaries(evidence, |evidence|, e.kid);
    assert IsFollowed(evidence, evidence[k]) && Unused(evidence, chain, evidence[k]);
    assert p !in Uses(chain, |chain|, e.kid, e.destroyedAt) && p !in Wraps(chain, |chain|, e.kid, e.destroyedAt);
  }

  // ----- Later passes -----

  lemma {:induction false} EventKeepsConflicts(w: Walk, event: Summary, at: Timestamp, problem: Problem)
    requires problem == DestroyedAtConflict || problem == KeyClassConflict
    ensures Located(WalkEvent(w, event, at).findings, problem) == Located(w.findings, problem)
  {
    hide Located;
    var used := CountUse(w, event);
    LocatedNext(w.findings, true, PostErasureUse, event.hash, problem);
    LocatedNext(used.findings, true, PostErasureWrap, event.hash, problem);
  }

  lemma {:induction false} WalkKeepsConflicts(w: Walk, chain: seq<Summary>, at: Timestamp, i: nat, problem: Problem)
    requires i <= |chain| && (problem == DestroyedAtConflict || problem == KeyClassConflict)
    ensures Located(WalkChain(w, chain, at, i).findings, problem) == Located(w.findings, problem)
  {
    if i > 0 {
      hide Located, WalkEvent;
      WalkKeepsConflicts(w, chain, at, i - 1, problem);
      EventKeepsConflicts(WalkChain(w, chain, at, i - 1), chain[i - 1], at, problem);
    }
  }

  lemma {:induction false} FollowedKeepsConflicts(g: Groups, chain: seq<Summary>, report: Report, i: nat,
                                                  problem: Problem)
    requires i <= |report.tallies| && (problem == DestroyedAtConflict || problem == KeyClassConflict)
    ensures Located(Followed(g, chain, report, i).findings, problem) == Located(report.findings, problem)
  {
    if i > 0 {
      hide Located, WalkChain;
      FollowedKeepsConflicts(g, chain, report, i - 1, problem);
      var r := Followed(g, chain, report, i - 1);
      var w := Walk(r.findings, r.tallies[i - 1]);
      if w.tally.kid in g.destroyedAt {
        WalkKeepsConflicts(w, chain, g.destroyedAt[w.tally.kid], |chain|, problem);
      }
    }
  }

  lemma {:induction false} UnattestedKeepsConflicts(findings: seq<Finding>, tallies: seq<Tally>, i: nat,
                                                    problem: Problem)
    requires i <= |tallies| && (problem == DestroyedAtConflict || problem == KeyClassConflict)
    ensures Located(Unattested(findings, tallies, i), problem) == Located(findings, problem)
  {
    if i > 0 {
      hide Located;
      UnattestedKeepsConflicts(findings, tallies, i - 1, problem);
      LocatedNext(Unattested(findings, tallies, i - 1), !tallies[i - 1].attested, AttestationInvalid, NoHash(),
                  problem);
    }
  }

  /** The whole pass reports each inconstant group once per kind of conflict, at the row that first disagrees. */
  lemma {:induction false} ConflictsReportedOnce(s: Setting, evidence: seq<Evidence>, chain: seq<Summary>)
    ensures var findings := Finalized(s, evidence, chain).findings;
            && Located(findings, DestroyedAtConflict) == TimeTurns(evidence, |evidence|)
            && Located(findings, KeyClassConflict) == ClassTurns(evidence, |evidence|)
  {
    hide Located, Grouped, TimeTurns, ClassTurns, Followed, Unattested;
    var g := Grouped(s, evidence, |evidence|);
    var before := Report(g.findings, AllUntallied(evidence, |evidence|));
    var r := Followed(g, chain, before, |evidence|);
    TimeConflictsReportedOnce(s, evidence, |evidence|);
    ClassConflictsReportedOnce(s, evidence, |evidence|);
    FollowedKeepsConflicts(g, chain, before, |evidence|, DestroyedAtConflict);
    FollowedKeepsConflicts(g, chain, before, |evidence|, KeyClassConflict);
    UnattestedKeepsConflicts(r.findings, r.tallies, |r.tallies|, DestroyedAtConflict);
    UnattestedKeepsConflicts(r.findings, r.tallies, |r.tallies|, KeyClassConflict);
  }

  // ----- The whole report -----

  /** What the grouping pass reports of row `i`. */
  ghost function RowReport(s: Setting, evidence: seq<Evidence>, i: nat): seq<Finding>
    requires i < |evidence|
  {
    var hash := evidence[i].hash;
    (if OtherClass(s, evidence[i]) then [Finding(RegistryClassMismatch, hash)] else [])
    + (if TimeTurn(evidence, i + 1) then [Finding(DestroyedAtConflict, hash)] else [])
    + (if ClassTurn(evidence, i + 1) then [Finding(KeyClassConflict, hash)] else [])
  }

  ghost function RowReports(s: Setting, evidence: seq<Evidence>, i: nat): seq<Finding>
    requires i <= |evidence|
  {
    if i == 0 then [] else RowReports(s, evidence, i - 1) + RowReport(s, evidence, i - 1)
  }

  /** What one event has to do with a destroyed key. */
  function EventReport(event: Summary, kid: Kid, at: Timestamp): seq<Finding> {
    if !Before(at, event.authoredAt) then []
    else
      (if event.signingKid == kid then [Finding(PostErasureUse, event.hash)] else [])
      + (if kid in event.wrapRecipients then [Finding(PostErasureWrap, event.hash)] else [])
  }

  function ChainReport(chain: seq<Summary>, i: nat, kid: Kid, at: Timestamp): seq<Finding>
    requires i <= |chain|
  {
    if i == 0 then [] else ChainReport(chain, i - 1, kid, at) + EventReport(chain[i - 1], kid, at)
  }

  /** What is reported of the key of row `k` along the chain. */
  ghost function KeyReport(evidence: seq<Evidence>, chain: seq<Summary>, k: nat): seq<Finding>
    requires k < |evidence|
  {
    if !IsFollowed(evidence, evidence[k]) then []
    else ChainReport(chain, |chain|, evidence[k].erasure.kid, evidence[k].erasure.destroyedAt)
  }

  ghost function KeyReports(evidence: seq<Evidence>, chain: seq<Summary>, i: nat): seq<Finding>
    requires i <= |evidence|
  {
    if i == 0 then [] else KeyReports(evidence, chain, i - 1) + KeyReport(evidence, chain, i - 1)
  }

  function AttestationReports(evidence: seq<Evidence>, i: nat): seq<Finding>
    requires i <= |evidence|
  {
    if i == 0 then []
    else
      AttestationReports(evidence, i - 1)
      + if evidence[i - 1].erasure.attested then [] else [Finding(AttestationInvalid, seq(32, j => 0))]
  }

  function ProblemsOf(findings: seq<Finding>): seq<Problem> {
    if findings == [] then [] else ProblemsOf(findings[..|findings| - 1]) + [findings[|findings| - 1].problem]
  }

  /** The problems listed with row `k`: a conflict of its key, or else what the chain shows. */
  ghost function ProblemsAt(evidence: seq<Evidence>, chain: seq<Summary>, k: nat): seq<Problem>
    requires k < |evidence|
  {
    if TimeVaries(evidence, |evidence|, evidence[k].erasure.kid) then [DestroyedAtConflict]
    else if ClassVaries(evidence, |evidence|, evidence[k].erasure.kid) then [KeyClassConflict]
    else ProblemsOf(KeyReport(evidence, chain, k))
  }

  lemma FindAppends(findings: seq<Finding>, found: bool, problem: Problem, hash: Hash)
    ensures Find(findings, found, problem, hash) == findings + if found then [Finding(problem, hash)] else []
  {
  }

  lemma {:induction false} RowFound(s: Setting, g: Groups, e: Evidence, otherTime: bool, otherClass: bool)
    requires otherTime == NewConflict(g.destroyedAt, g.timeConflicts, e.erasure.kid, e.erasure.destroyedAt)
    requires otherClass == NewConflict(g.keyClass, g.classConflicts, e.erasure.kid, e.erasure.keyClass)
    ensures GroupRow(s, g, e).findings
            == g.findings + (if Misclassified(s, e) then [Finding(RegistryClassMismatch, e.hash)] else [])
               + (if otherTime then [Finding(DestroyedAtConflict, e.hash)] else [])
               + (if otherClass then [Finding(KeyClassConflict, e.hash)] else [])
  {
    hide Misclassified, NewConflict, KeepFirst, Find;
    var f := Find(g.findings, Misclassified(s, e), RegistryClassMismatch, e.hash);
    FindAppends(g.findings, Misclassified(s, e), RegistryClassMismatch, e.hash);
    FindAppends(f, otherTime, DestroyedAtConflict, e.hash);
    FindAppends(Find(f, otherTime, DestroyedAtConflict, e.hash), otherClass, KeyClassConflict, e.hash);
  }

  lemma Regrouped(a: seq<Finding>, b: seq<Finding>, c: seq<Finding>, d: seq<Finding>)
    ensures a + b + c + d == a + (b + c + d)
  {
  }

  lemma {:induction false} RowReported(s: Setting, evidence: seq<Evidence>, i: nat, g: Groups)
    requires i < |evidence| && g == Grouped(s, evidence, i)
    ensures GroupRow(s, g, evidence[i]).findings == g.findings + RowReport(s, evidence, i)
  {
    hide GroupRow, Misclassified, OtherClass, NewConflict, TimeTurn, ClassTurn, Grouped;
    var e, otherTime, otherClass := evidence[i], TimeTurn(evidence, i + 1), ClassTurn(evidence, i + 1);
    TurnsAreNew(s, evidence, i + 1);
    MisclassifiedExactly(s, e);
    RowFound(s, g, e, otherTime, otherClass);
    Regrouped(g.findings, if OtherClass(s, e) then [Finding(RegistryClassMismatch, e.hash)] else [],
              if otherTime then [Finding(DestroyedAtConflict, e.hash)] else [],
              if otherClass then [Finding(KeyClassConflict, e.hash)] else []);
  }

  lemma {:induction false} RowsReported(s: Setting, evidence: seq<Evidence>, i: nat)
    requires i <= |evidence|
    ensures Grouped(s, evidence, i).findings == RowReports(s, evidence, i)
  {
    if i > 0 {
      hide GroupRow, RowReport;
      RowsReported(s, evidence, i - 1);
      RowReported(s, evidence, i - 1, Grouped(s, evidence, i - 1));
    }
  }

  lemma {:induction false} EventReported(w: Walk, event: Summary, at: Timestamp)
    ensures var r, report := WalkEvent(w, event, at), EventReport(event, w.tally.kid, at);
            && r.findings == w.findings + report
            && r.tally.problems == w.tally.problems + ProblemsOf(report)
            && r.tally.kid == w.tally.kid && r.tally.index == w.tally.index && r.tally.attested == w.tally.attested
  {
    hide Before;
    assert ProblemsOf([]) == [];
    assert forall f: Finding :: ProblemsOf([f]) == [f.problem];
    assert forall f: Finding, g: Finding :: [f, g][..1] == [f] && ProblemsOf([f, g]) == [f.problem, g.problem];
  }

  lemma {:induction false} ProblemsOfSum(a: seq<Finding>, b: seq<Finding>)
    ensures ProblemsOf(a + b) == ProblemsOf(a) + ProblemsOf(b)
    decreases |b|
  {
    if b == [] {
      assert a + b == a;
    } else {
      ProblemsOfSum(a, b[..|b| - 1]);
      assert (a + b)[..|a + b| - 1] == a + b[..|b| - 1];
    }
  }

  lemma {:induction false} ChainReported(w: Walk, chain: seq<Summary>, at: Timestamp, i: nat)
    requires i <= |chain|
    ensures var r, report := WalkChain(w, chain, at, i), ChainReport(chain, i, w.tally.kid, at);
            && r.findings == w.findings + report
            && r.tally.problems == w.tally.problems + ProblemsOf(report)
            && r.tally.kid == w.tally.kid && r.tally.index == w.tally.index && r.tally.attested == w.tally.attested
  {
    hide WalkEvent, EventReport, ProblemsOf;
    if i > 0 {
      ChainReported(w, chain, at, i - 1);
      EventReported(WalkChain(w, chain, at, i - 1), chain[i - 1], at);
      ProblemsOfSum(ChainReport(chain, i - 1, w.tally.kid, at), EventReport(chain[i - 1], w.tally.kid, at));
    } else {
      NoProblemsOf();
      assert w.findings + [] == w.findings && w.tally.problems + [] == w.tally.problems;
    }
  }

  lemma NoProblemsOf()
    ensures ProblemsOf([]) == []
  {
  }

  lemma {:induction false} KeyReported(s: Setting, evidence: seq<Evidence>, chain: seq<Summary>, k: nat,
                                       findings: seq<Finding>)
    requires k < |evidence|
    ensures var w := Walk(findings, Untallied(evidence[k]));
            var r := Follow(Grouped(s, evidence, |evidence|), chain, w);
            && r.findings == findings + KeyReport(evidence, chain, k)
            && r.tally.kid == evidence[k].erasure.kid && r.tally.index == evidence[k].index
            && r.tally.attested == evidence[k].erasure.attested
            && r.tally.problems == ProblemsAt(evidence, chain, k)
  {
    var w, e := Walk(findings, Untallied(evidence[k])), evidence[k].erasure;
    hide Grouped, WalkChain, ChainReport, TimeVaries, ClassVaries, ProblemsOf;
    FollowsExactly(s, evidence, chain, k, findings);
    GroupsExactly(s, evidence, |evidence|, e.kid);
    ChainReported(w, chain, e.destroyedAt, |chain|);
    NoProblemsOf();
    assert findings + [] == findings;
    assert forall problems: seq<Problem> :: [] + problems == problems;
  }

  lemma {:induction false} KeysReported(s: Setting, evidence: seq<Evidence>, chain: seq<Summary>, report: Report,
                                        i: nat)
    requires i <= |evidence| && report.tallies == AllUntallied(evidence, |evidence|)
    ensures var r := Followed(Grouped(s, evidence, |evidence|), chain, report, i);
            && r.findings == report.findings + KeyReports(evidence, chain, i)
            && forall k :: 0 <= k < i ==>
                 && r.tallies[k].kid == evidence[k].erasure.kid && r.tallies[k].index == evidence[k].index
                 && r.tallies[k].attested == evidence[k].erasure.attested
                 && r.tallies[k].problems == ProblemsAt(evidence, chain, k)
  {
    hide Grouped, Follow, KeyReport, ProblemsAt, AllUntallied, Untallied;
    if i > 0 {
      KeysReported(s, evidence, chain, report, i - 1);
      var g := Grouped(s, evidence, |evidence|);
      var before := Followed(g, chain, report, i - 1);
      KeyReported(s, evidence, chain, i - 1, before.findings);
      var w := Follow(g, chain, Walk(before.findings, before.tallies[i - 1]));
      assert Followed(g, chain, report, i) == Report(w.findings, before.tallies[i - 1 := w.tally]);
      assert before.findings == report.findings + KeyReports(evidence, chain, i - 1);
      assert w.findings == report.findings + KeyReports(evidence, chain, i);
    } else {
      assert report.findings + [] == report.findings;
    }
  }

  lemma {:induction false} AttestationsReported(findings: seq<Finding>, tallies: seq<Tally>, evidence: seq<Evidence>,
                                                i: nat)
    requires i <= |tallies| == |evidence|
    requires forall k :: 0 <= k < |evidence| ==> tallies[k].attested == evidence[k].erasure.attested
    ensures Unattested(findings, tallies, i) == findings + AttestationReports(evidence, i)
  {
    if i > 0 {
      AttestationsReported(findings, tallies, evidence, i - 1);
      assert NoHash() == seq(32, j => 0);
    } else {
      assert findings + [] == findings;
    }
  }

  /** Everything that is found, in order, and every row of the result. */
  lemma {:induction false} ReportsExactly(s: Setting, evidence: seq<Evidence>, chain: seq<Summary>)
    ensures var report := Finalized(s, evidence, chain);
            && report.findings == RowReports(s, evidence, |evidence|) + KeyReports(evidence, chain, |evidence|)
                                  + AttestationReports(evidence, |evidence|)
            && |report.tallies| == |evidence|
            && forall k :: 0 <= k < |evidence| ==>
                 && report.tallies[k].kid == evidence[k].erasure.kid && report.tallies[k].index == evidence[k].index
                 && report.tallies[k].attested == evidence[k].erasure.attested
                 && report.tallies[k].problems == ProblemsAt(evidence, chain, k)
  {
    hide Grouped, Followed, KeyReports, RowReports, AttestationReports, ProblemsAt, Unattested;
    var g := Grouped(s, evidence, |evidence|);
    var before := Report(g.findings, AllUntallied(evidence, |evidence|));
    var r := Followed(g, chain, before, |evidence|);
    RowsReported(s, evidence, |evidence|);
    KeysReported(s, evidence, chain, before, |evidence|);
    AttestationsReported(r.findings, r.tallies, evidence, |evidence|);
  }
}
