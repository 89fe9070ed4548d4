/** The pass over the events followed by the pass over the evidence of destroyed keys. */
module Ledger {
  import opened EventSet
  import opened LedgerProperties
  import opened Wrappers
  import Erasure

  datatype Verdict = Verdict(state: State, erasure: Erasure.Report)

  function Verify(s: Setting, events: seq<Event>): Result<Verdict, FatalKind> {
    match StateAfter(s, events, |events|)
    case Err(fatal) => Err(fatal)
    case Ok(state) => Ok(Verdict(state, Erasure.Finalized(s, state.erasures, state.chain)))
  }

  method VerifyLedger(s: Setting, events: seq<Event>) returns (r: Result<Verdict, FatalKind>)
    ensures r == Verify(s, events)
  {
    var passed := VerifyEvents(s, events);
    if passed.Err? {
      return Err(passed.error);
    }
    var report := Erasure.FinalizeErasureEvidence(s, passed.value.erasures, passed.value.chain);
    return Ok(Verdict(passed.value, report));
  }

  /** Neither pass reports anything. */
  predicate Clean(s: Setting, events: seq<Event>) {
    var r := Verify(s, events);
    r.Ok? && r.value.state.failures == [] && r.value.erasure.findings == []
  }

  lemma {:induction false} EvidenceIsKept(s: Setting, events: seq<Event>, i: nat, k: nat)
    requires k < i <= |events| && Decodes(s, events[k]) && FieldsOf(s, events[k]).erasure.Some?
    ensures Evidence(k, FieldsOf(s, events[k]).erasure.value, HashOf(s, events[k])) in EvidenceIn(s, events, i)
    decreases i
  {
    hide Decodes, FieldsOf, HashOf;
    if k < i - 1 {
      EvidenceIsKept(s, events, i - 1, k);
    }
  }

  lemma {:induction false} CleanIsTracked(s: Setting, events: seq<Event>)
    requires Clean(s, events)
    ensures StateAfter(s, events, |events|).Ok?
    ensures Tracks(s, events, |events|, StateAfter(s, events, |events|).value)
  {
    hide Tracks, AllSound;
    SilentExactly(s, events, |events|);
  }

  /**
   * In a clean ledger no event authored after the destruction of a signing or subject key is signed with that key or
   * has its content key wrapped for it.
   */
  lemma {:induction false} DestroyedKeysStayUnused(s: Setting, events: seq<Event>, i: nat, j: nat)
    requires Clean(s, events) && i < |events| && j < |events|
    ensures Decodes(s, events[i]) && Decodes(s, events[j])
    ensures var evidence := FieldsOf(s, events[i]).erasure;
            evidence.Some? && (evidence.value.keyClass == "signing" || evidence.value.keyClass == "subject")
            && Before(evidence.value.destroyedAt, FieldsOf(s, events[j]).authoredAt)
            ==> events[j].kid != evidence.value.kid && evidence.value.kid !in FieldsOf(s, events[j]).wrapRecipients
  {
    hide Decodes, FieldsOf, HashOf, StateAfter, Before, Erasure.Finalized, StateBefore, EvidenceIn,
         Remembers;
    CleanIsTracked(s, events);
    var state := StateAfter(s, events, |events|).value;
    var evidence := FieldsOf(s, events[i]).erasure;
    assert state.chain[j] == SummaryOf(s, events[j]);
    if evidence.Some? && (evidence.value.keyClass == "signing" || evidence.value.keyClass == "subject")
       && Before(evidence.value.destroyedAt, FieldsOf(s, events[j]).authoredAt) {
      EvidenceIsKept(s, events, |events|, i);
      var k :| 0 <= k < |state.erasures|
               && state.erasures[k] == Evidence(i, evidence.value, HashOf(s, events[i]));
      Erasure.DestroyedKeysStayUnused(s, state.erasures, state.chain, k, j);
    }
  }
}
