/** What a pass over a ledger that reports nothing says about all its events. */
module LedgerProperties {
  import opened AuthoredEvent
  import opened Bytes
  import opened CborHead
  import opened EventSet
  import opened Preimages
  import opened Wrappers

  predicate Decodes(s: Setting, event: Event) {
    event.payload.Some? && s.decode(event.payload.value).Some?
  }

  function FieldsOf(s: Setting, event: Event): Fields
    requires Decodes(s, event)
  {
    s.decode(event.payload.value).value
  }

  function HashOf(s: Setting, event: Event): Hash
    requires Decodes(s, event)
  {
    s.sha256(DomainPreimage(s.tag(EventDomain), CanonicalPreimage(FieldsOf(s, event).scope, event.payload.value)))
  }

  function IdentityOf(s: Setting, event: Event): Identity
    requires Decodes(s, event)
  {
    (FieldsOf(s, event).scope, FieldsOf(s, event).idempotencyKey)
  }

  // ----- Sound events -----

  /** The event is in the one supported suite and names a key of the registry. */
  predicate Admissible(s: Setting, event: Event) {
    event.kid in s.registry && event.alg == -8 && event.suiteId == 1 && event.artifactType == EventArtifact
  }

  /** The named key has signed the event's header and its payload, which is at hand. */
  predicate Signed(s: Setting, event: Event)
    requires event.kid in s.registry
  {
    && event.payload.Some? && Encodable(event.protectedHeader) && Encodable(event.payload.value)
    && s.signed(s.registry[event.kid].publicKey, SigStructure(event.protectedHeader, event.payload.value),
                event.signature)
  }

  predicate Genuine(s: Setting, event: Event) {
    Admissible(s, event) && Signed(s, event)
  }

  /** Content that is at hand has the promised hash. */
  predicate ContentMatches(s: Setting, fields: Fields) {
    match fields.payloadRef
    case Inline(ciphertext) => s.sha256(DomainPreimage(s.tag(ContentDomain), ciphertext)) == fields.contentHash
    case External =>
      fields.contentHash in s.blobs ==>
        s.sha256(DomainPreimage(s.tag(ContentDomain), s.blobs[fields.contentHash])) == fields.contentHash
  }

  /** The payload without its last entry can be recovered. */
  predicate HasAuthored(payload: Bytes) {
    (payload != [] ==> payload[0] / 32 != 3) && AuthoredPreimage(payload).Some?
  }

  predicate AuthorMatches(s: Setting, payload: Bytes, fields: Fields)
    requires HasAuthored(payload)
  {
    s.sha256(DomainPreimage(s.tag(AuthorDomain), AuthoredPreimage(payload).value)) == fields.authorHash
  }

  /** What one event must be by itself. */
  predicate LocallySound(s: Setting, event: Event) {
    && Genuine(s, event) && Decodes(s, event)
    && var key, payload, fields := s.registry[event.kid], event.payload.value, FieldsOf(s, event);
       && (key.status == 3 ==> key.validTo.Some? && !Before(key.validTo.value, fields.authoredAt))
       && (s.expectedScope.Some? ==> fields.scope == s.expectedScope.value)
       && ContentMatches(s, fields)
       && HasAuthored(payload) && AuthorMatches(s, payload, fields)
  }

  /** The hash an event that is not the first of its chain must name. */
  function Predecessor(s: Setting, events: seq<Event>, i: nat): Option<Hash>
    requires i <= |events|
  {
    if i > 0 && Decodes(s, events[i - 1]) then Some(HashOf(s, events[i - 1])) else None
  }

  /** Sequence number zero begins a chain; any other names the event before it. */
  predicate Linked(s: Setting, events: seq<Event>, i: nat)
    requires i < |events| && Decodes(s, events[i])
  {
    var fields := FieldsOf(s, events[i]);
    || (s.initialDeclaration.Some? && |events| == 1)
    || fields.prevHash == if fields.sequence == 0 then None else Predecessor(s, events, i)
  }

  predicate NotBackwards(s: Setting, earlier: Event, later: Event)
    requires Decodes(s, earlier) && Decodes(s, later)
  {
    !Before(FieldsOf(s, later).authoredAt, FieldsOf(s, earlier).authoredAt)
  }

  /** Events of the same scope and idempotency key are the same event. */
  predicate Idempotent(s: Setting, earlier: Event, later: Event)
    requires Decodes(s, earlier) && Decodes(s, later)
  {
    IdentityOf(s, earlier) == IdentityOf(s, later) ==> HashOf(s, earlier) == HashOf(s, later)
  }

  /** The state declared at the start for one kind of transition. */
  function Declared(s: Setting, kind: TransitionKind): Option<string> {
    match s.initialDeclaration
    case None => None
    case Some(bytes) => if kind == CustodyModel then s.custodyModel(bytes) else s.disclosureProfile(bytes)
  }

  function TransitionAt(s: Setting, event: Event): Option<Transition> {
    if Decodes(s, event) then FieldsOf(s, event).transition else None
  }

  predicate Moves(s: Setting, event: Event, kind: TransitionKind) {
    TransitionAt(s, event).Some? && TransitionAt(s, event).value.kind == kind
  }

  /** Where the last transition of a kind among the first `i` events ended, or else the declared state. */
  function StateBefore(s: Setting, events: seq<Event>, i: nat, kind: TransitionKind): Option<string>
    requires i <= |events|
  {
    if i == 0 then Declared(s, kind)
    else if Moves(s, events[i - 1], kind) then Some(TransitionAt(s, events[i - 1]).value.toState)
    else StateBefore(s, events, i - 1, kind)
  }

  /** Custody grows from the model CM-C over CM-B to CM-A, and is least in any other. */
  predicate Raises(fromState: string, toState: string) {
    || (toState == "CM-A" && fromState != "CM-A")
    || (toState == "CM-B" && fromState != "CM-A" && fromState != "CM-B")
    || (toState == "CM-C" && fromState != "CM-A" && fromState != "CM-B" && fromState != "CM-C")
  }

  /** Transitions that raise custody, and those of disclosure that do not narrow it, need both attestations. */
  predicate NeedsBoth(transition: Transition) {
    if transition.kind == CustodyModel then Raises(transition.fromState, transition.toState)
    else transition.scopeChange != Some("Narrowing")
  }

  predicate HasBoth(transition: Transition) {
    "prior" in transition.attestationClasses && "new" in transition.attestationClasses
  }

  predicate DeclarationMatches(s: Setting, transition: Transition) {
    s.declaration.Some? ==>
      s.sha256(DomainPreimage(s.tag(DeclarationDomain), s.declaration.value)) == transition.declarationDigest
  }

  /** The transition starts where the last one of its kind ended and is attested as it must be. */
  predicate Joins(s: Setting, shadow: Option<string>, transition: Transition) {
    && (shadow.Some? ==> transition.fromState == shadow.value)
    && DeclarationMatches(s, transition)
    && (NeedsBoth(transition) ==> HasBoth(transition))
  }

  ghost predicate EventSound(s: Setting, events: seq<Event>, i: nat)
    requires i < |events|
  {
    && LocallySound(s, events[i])
    && Linked(s, events, i)
    && (i > 0 && Decodes(s, events[i - 1]) ==> NotBackwards(s, events[i - 1], events[i]))
    && (forall k :: 0 <= k < i && Decodes(s, events[k]) ==> Idempotent(s, events[k], events[i]))
    && var transition := FieldsOf(s, events[i]).transition;
       transition.Some? ==> Joins(s, StateBefore(s, events, i, transition.value.kind), transition.value)
  }

  ghost predicate AllSound(s: Setting, events: seq<Event>, i: nat)
    requires i <= |events|
  {
    forall k :: 0 <= k < i ==> EventSound(s, events, k)
  }

  predicate Silent(r: Result<State, FatalKind>) {
    r.Ok? && r.value.failures == []
  }

  // ----- What the state remembers -----

  function SummaryOf(s: Setting, event: Event): Summary
    requires Decodes(s, event)
  {
    var fields := FieldsOf(s, event);
    Summary(fields.authoredAt, event.kid, fields.wrapRecipients, HashOf(s, event))
  }

  /** The evidence of destroyed keys in the first `i` events. */
  function EvidenceIn(s: Setting, events: seq<Event>, i: nat): seq<Evidence>
    requires i <= |events|
  {
    if i == 0 then []
    else
      var event, earlier := events[i - 1], EvidenceIn(s, events, i - 1);
      if Decodes(s, event) && FieldsOf(s, event).erasure.Some? then
        earlier + [Evidence(i - 1, FieldsOf(s, event).erasure.value, HashOf(s, event))]
      else earlier
  }

  /** The state of a silent run says what came before. */
  ghost predicate Tracks(s: Setting, events: seq<Event>, i: nat, state: State)
    requires i <= |events|
  {
    && (forall k :: 0 <= k < i ==> Decodes(s, events[k]))
    && state.previousHash == Predecessor(s, events, i)
    && state.previousAt == (if i == 0 then None else Some(FieldsOf(s, events[i - 1]).authoredAt))
    && (forall kind :: state.posture.Of(kind) == StateBefore(s, events, i, kind))
    && Remembers(s, events, i, state.idempotency)
    && state.erasures == EvidenceIn(s, events, i)
    && |state.chain| == i
    && (forall k :: 0 <= k < i ==> state.chain[k] == SummaryOf(s, events[k]))
  }

  ghost predicate Remembers(s: Setting, events: seq<Event>, i: nat, idempotency: map<Identity, Hash>)
    requires i <= |events|
    requires forall k :: 0 <= k < i ==> Decodes(s, events[k])
  {
    && (forall k :: 0 <= k < i ==>
          IdentityOf(s, events[k]) in idempotency && idempotency[IdentityOf(s, events[k])] == HashOf(s, events[k]))
    && (forall id :: id in idempotency ==> exists k :: 0 <= k < i && IdentityOf(s, events[k]) == id)
  }

  lemma {:induction false} EventSilent(s: Setting, count: nat, key: KeyEntry, payload: Bytes, fields: Fields,
                                       hash: Hash, state: State)
    ensures var identity := (fields.scope, fields.idempotencyKey);
            EventFailures(s, count, key, payload, fields, hash, state) == []
            <==> && state.failures == []
                 && !AuthoredAfterRevocation(key, fields.authoredAt) && !WrongScope(s, fields.scope)
                 && (identity in state.idempotency ==> state.idempotency[identity] == hash)
                 && !WrongContent(s, fields) && AuthorProblem(s, payload, fields).None?
                 && LinkProblem(s, count, state.previousHash, fields).None?
                 && !Backwards(state.previousAt, fields.authoredAt)
  {
    hide AuthoredAfterRevocation, WrongScope, WrongContent, AuthorProblem, LinkProblem, Backwards;
  }

  lemma RaisesExactly(fromState: string, toState: string)
    ensures Raises(fromState, toState) <==> CustodyRank(toState) > CustodyRank(fromState)
  {
  }

  lemma NoProblems(s: Setting, shadow: Option<string>, transition: Transition)
    ensures Problems(s, shadow, transition) == [] <==> Joins(s, shadow, transition)
  {
    RaisesExactly(transition.fromState, transition.toState);
  }

  lemma {:induction false} AdmitsExactly(s: Setting, event: Event)
    ensures Admit(s, event).Ok? <==> Admissible(s, event)
    ensures Admissible(s, event) ==>
              && Admit(s, event).value == s.registry[event.kid]
              && (VerifySignature(s, s.registry[event.kid], event) <==> Signed(s, event))
  {
    hide SigStructure;
  }

  lemma {:induction false} RecordSilent(s: Setting, count: nat, key: KeyEntry, event: Event, payload: Bytes,
                                        fields: Fields, i: nat, state: State)
    ensures Record(s, count, key, event, payload, fields, i, state).failures == []
            <==> && EventFailures(s, count, key, payload, fields, EventHash(s, fields.scope, payload), state) == []
                 && (fields.transition.Some? ==>
                       Joins(s, state.posture.Of(fields.transition.value.kind), fields.transition.value))
  {
    hide EventFailures, Joins, Problems, EventHash;
    if fields.transition.Some? {
      NoProblems(s, state.posture.Of(fields.transition.value.kind), fields.transition.value);
    }
  }

  lemma {:induction false} StepUnfolds(s: Setting, count: nat, event: Event, i: nat, state: State)
    requires state.failures == []
    ensures Silent(Step(s, count, event, i, state))
            <==> && Admit(s, event).Ok? && VerifySignature(s, Admit(s, event).value, event) && Decodes(s, event)
                 && var key, fields := Admit(s, event).value, FieldsOf(s, event);
                    && (key.status == REVOKED ==> key.validTo.Some?)
                    && Record(s, count, key, event, event.payload.value, fields, i, state).failures == []
    ensures Silent(Step(s, count, event, i, state)) ==>
              Step(s, count, event, i, state)
              == Ok(Record(s, count, Admit(s, event).value, event, event.payload.value, FieldsOf(s, event), i, state))
  {
    hide Admit, VerifySignature, Record;
  }

  lemma {:induction false} LinkedExactly(s: Setting, events: seq<Event>, i: nat, state: State)
    requires i < |events| && Tracks(s, events, i, state) && Decodes(s, events[i])
    ensures LinkProblem(s, |events|, state.previousHash, FieldsOf(s, events[i])).None? <==> Linked(s, events, i)
  {
    hide FieldsOf, Predecessor, StateBefore, Remembers, SummaryOf;
  }

  lemma NotBackwardsExactly(s: Setting, events: seq<Event>, i: nat, state: State)
    requires i < |events| && Tracks(s, events, i, state) && Decodes(s, events[i])
    ensures Backwards(state.previousAt, FieldsOf(s, events[i]).authoredAt)
            <==> i > 0 && !NotBackwards(s, events[i - 1], events[i])
  {
  }

  lemma {:induction false} IdempotentExactly(s: Setting, events: seq<Event>, i: nat, state: State)
    requires i < |events| && Tracks(s, events, i, state) && Decodes(s, events[i])
    ensures var identity := IdentityOf(s, events[i]);
            (identity in state.idempotency ==> state.idempotency[identity] == HashOf(s, events[i]))
            <==> forall k :: 0 <= k < i && Decodes(s, events[k]) ==> Idempotent(s, events[k], events[i])
  {
    hide FieldsOf, HashOf, IdentityOf, Predecessor, StateBefore, SummaryOf, Decodes;
  }

  lemma {:induction false} LocallySoundExactly(s: Setting, event: Event)
    requires Admit(s, event).Ok? && VerifySignature(s, Admit(s, event).value, event) && Decodes(s, event)
    ensures var key, fields := Admit(s, event).value, FieldsOf(s, event);
            LocallySound(s, event)
            <==> && (key.status == REVOKED ==> key.validTo.Some?)
                 && !AuthoredAfterRevocation(key, fields.authoredAt) && !WrongScope(s, fields.scope)
                 && !WrongContent(s, fields) && AuthorProblem(s, event.payload.value, fields).None?
  {
    AdmitsExactly(s, event);
    hide Admit, VerifySignature, Decodes, FieldsOf, Before, DomainPreimage, AuthoredPreimage, Signed;
  }

  /** From a state that says what came before, an event is passed in silence exactly if it is sound. */
  lemma {:induction false} StepSilent(s: Setting, events: seq<Event>, i: nat, state: State)
    requires i < |events| && Tracks(s, events, i, state) && state.failures == []
    ensures Silent(Step(s, |events|, events[i], i, state)) <==> EventSound(s, events, i)
  {
    hide *;
    var event := events[i];
    StepUnfolds(s, |events|, event, i, state);
    AdmitsExactly(s, event);
    if Admit(s, event).Ok? && VerifySignature(s, Admit(s, event).value, event) && Decodes(s, event) {
      var key, payload, fields := Admit(s, event).value, event.payload.value, FieldsOf(s, event);
      SoundUnfolds(s, events, i, state);
      RecordSilent(s, |events|, key, event, payload, fields, i, state);
      EventSilent(s, |events|, key, payload, fields, EventHash(s, fields.scope, payload), state);
      LinkedExactly(s, events, i, state);
      NotBackwardsExactly(s, events, i, state);
      IdempotentExactly(s, events, i, state);
      LocallySoundExactly(s, event);
    } else if EventSound(s, events, i) {
      SoundIsAdmitted(s, events, i);
    }
  }

  lemma {:induction false} SoundIsAdmitted(s: Setting, events: seq<Event>, i: nat)
    requires i < |events| && EventSound(s, events, i)
    ensures Admit(s, events[i]).Ok? && VerifySignature(s, Admit(s, events[i]).value, events[i])
    ensures Decodes(s, events[i])
  {
    AdmitsExactly(s, events[i]);
    hide Admit, VerifySignature, Decodes, Signed, Admissible;
  }

  lemma {:induction false} SoundUnfolds(s: Setting, events: seq<Event>, i: nat, state: State)
    requires i < |events| && Tracks(s, events, i, state) && Decodes(s, events[i])
    ensures EventHash(s, FieldsOf(s, events[i]).scope, events[i].payload.value) == HashOf(s, events[i])
    ensures (FieldsOf(s, events[i]).scope, FieldsOf(s, events[i]).idempotencyKey) == IdentityOf(s, events[i])
    ensures EventSound(s, events, i)
            <==> && LocallySound(s, events[i])
                 && Linked(s, events, i)
                 && (i > 0 ==> NotBackwards(s, events[i - 1], events[i]))
                 && (forall k :: 0 <= k < i && Decodes(s, events[k]) ==> Idempotent(s, events[k], events[i]))
                 && var transition := FieldsOf(s, events[i]).transition;
                    transition.Some? ==> Joins(s, state.posture.Of(transition.value.kind), transition.value)
  {
    hide LocallySound, Linked, NotBackwards, Idempotent, Joins, DomainPreimage, CanonicalPreimage, Decodes, Posture.Of;
  }

  lemma {:induction false} RecordTracks(s: Setting, events: seq<Event>, i: nat, key: KeyEntry, state: State)
    requires i < |events| && Tracks(s, events, i, state) && Decodes(s, events[i])
    requires IdentityOf(s, events[i]) in state.idempotency ==>
               state.idempotency[IdentityOf(s, events[i])] == HashOf(s, events[i])
    ensures Tracks(s, events, i + 1,
                   Record(s, |events|, key, events[i], events[i].payload.value, FieldsOf(s, events[i]), i, state))
  {
    hide EventFailures, Problems, Note, DomainPreimage, CanonicalPreimage, Remembers, Remember;
    RemembersNext(s, events, i, state.idempotency);
    var event, fields := events[i], FieldsOf(s, events[i]);
    var next := Record(s, |events|, key, event, event.payload.value, fields, i, state);
    assert next.previousHash == Some(HashOf(s, event));
    assert next.idempotency == Remember(state.idempotency, IdentityOf(s, event), HashOf(s, event));
    assert next.chain == state.chain + [SummaryOf(s, event)];
    forall kind
      ensures next.posture.Of(kind) == StateBefore(s, events, i + 1, kind)
    {
      assert kind == CustodyModel || kind == DisclosureProfile;
    }
  }

  lemma {:induction false} StepTracks(s: Setting, events: seq<Event>, i: nat, state: State)
    requires i < |events| && Tracks(s, events, i, state) && state.failures == []
    requires Silent(Step(s, |events|, events[i], i, state))
    ensures Tracks(s, events, i + 1, Step(s, |events|, events[i], i, state).value)
  {
    hide *;
    var event := events[i];
    StepUnfolds(s, |events|, event, i, state);
    var key, payload, fields := Admit(s, event).value, event.payload.value, FieldsOf(s, event);
    SoundUnfolds(s, events, i, state);
    RecordSilent(s, |events|, key, event, payload, fields, i, state);
    EventSilent(s, |events|, key, payload, fields, EventHash(s, fields.scope, payload), state);
    RecordTracks(s, events, i, key, state);
  }

  lemma {:induction false} RemembersNext(s: Setting, events: seq<Event>, i: nat, idempotency: map<Identity, Hash>)
    requires i < |events| && forall k :: 0 <= k <= i ==> Decodes(s, events[k])
    requires Remembers(s, events, i, idempotency)
    requires IdentityOf(s, events[i]) in idempotency ==> idempotency[IdentityOf(s, events[i])] == HashOf(s, events[i])
    ensures Remembers(s, events, i + 1, Remember(idempotency, IdentityOf(s, events[i]), HashOf(s, events[i])))
  {
    hide IdentityOf, HashOf, Decodes;
    var next := Remember(idempotency, IdentityOf(s, events[i]), HashOf(s, events[i]));
    forall id | id in next
      ensures exists k :: 0 <= k < i + 1 && IdentityOf(s, events[k]) == id
    {
      if id in idempotency {
        var k :| 0 <= k < i && IdentityOf(s, events[k]) == id;
      } else {
        assert IdentityOf(s, events[i]) == id;
      }
    }
  }

  // ----- Silent runs -----

  /** A run over the first `i` events reports nothing exactly when all of them are sound. */
  lemma {:induction false} SilentExactly(s: Setting, events: seq<Event>, i: nat)
    requires i <= |events|
    ensures Silent(StateAfter(s, events, i)) <==> AllSound(s, events, i)
    ensures Silent(StateAfter(s, events, i)) ==> Tracks(s, events, i, StateAfter(s, events, i).value)
  {
    if i == 0 {
      hide EventSound;
    } else {
      SilentExactly(s, events, i - 1);
      SilentStep(s, events, i);
    }
  }

  lemma {:induction false} SilentStep(s: Setting, events: seq<Event>, i: nat)
    requires 0 < i <= |events|
    requires Silent(StateAfter(s, events, i - 1)) <==> AllSound(s, events, i - 1)
    requires Silent(StateAfter(s, events, i - 1)) ==> Tracks(s, events, i - 1, StateAfter(s, events, i - 1).value)
    ensures Silent(StateAfter(s, events, i)) <==> AllSound(s, events, i)
    ensures Silent(StateAfter(s, events, i)) ==> Tracks(s, events, i, StateAfter(s, events, i).value)
  {
    hide Tracks, Step, EventSound;
    if Silent(StateAfter(s, events, i - 1)) {
      var state := StateAfter(s, events, i - 1).value;
      StepSilent(s, events, i - 1, state);
      if Silent(StateAfter(s, events, i)) {
        StepTracks(s, events, i - 1, state);
      }
    } else if StateAfter(s, events, i - 1).Ok? {
      FailuresStay(s, |events|, events[i - 1], i - 1, StateAfter(s, events, i - 1).value);
    }
  }

  lemma {:induction false} FailuresStay(s: Setting, count: nat, event: Event, i: nat, state: State)
    requires state.failures != []
    ensures !Silent(Step(s, count, event, i, state))
  {
    hide Record;
    if Admit(s, event).Ok? && VerifySignature(s, Admit(s, event).value, event) && Decodes(s, event) {
      var key, payload, fields := Admit(s, event).value, event.payload.value, FieldsOf(s, event);
      RecordSilent(s, count, key, event, payload, fields, i, state);
      EventSilent(s, count, key, payload, fields, EventHash(s, fields.scope, payload), state);
    }
  }

  lemma SilentIsSound(s: Setting, events: seq<Event>, i: nat)
    requires Silent(StateAfter(s, events, |events|)) && i < |events|
    ensures EventSound(s, events, i) && Decodes(s, events[i])
  {
    SilentExactly(s, events, |events|);
  }

  /** In a run that reports nothing every event is signed by the key it names. */
  lemma {:induction false} SilentIsSigned(s: Setting, events: seq<Event>, i: nat)
    requires Silent(StateAfter(s, events, |events|)) && i < |events|
    ensures var event := events[i];
            && event.kid in s.registry && event.payload.Some?
            && Encodable(event.protectedHeader) && Encodable(event.payload.value)
            && s.signed(s.registry[event.kid].publicKey, SigStructure(event.protectedHeader, event.payload.value),
                        event.signature)
  {
    hide Linked, NotBackwards, Idempotent, Joins, StateAfter, SigStructure, ContentMatches, HasAuthored;
    SilentIsSound(s, events, i);
  }

  /** Authored times never decrease between any two positions. */
  lemma {:induction false} TimesNeverDecrease(s: Setting, events: seq<Event>, i: nat, j: nat)
    requires Silent(StateAfter(s, events, |events|)) && i < j < |events|
    ensures Decodes(s, events[i]) && Decodes(s, events[j]) && NotBackwards(s, events[i], events[j])
    decreases j
  {
    hide LocallySound, Linked, Idempotent, Joins, StateAfter;
    SilentIsSound(s, events, i);
    SilentIsSound(s, events, j);
    SilentIsSound(s, events, j - 1);
    if i < j - 1 {
      TimesNeverDecrease(s, events, i, j - 1);
    }
  }

  /** Any two events with the same scope and idempotency key have the same payload hash. */
  lemma {:induction false} SameIdentitySameHash(s: Setting, events: seq<Event>, i: nat, j: nat)
    requires Silent(StateAfter(s, events, |events|)) && i < |events| && j < |events|
    ensures Decodes(s, events[i]) && Decodes(s, events[j])
    ensures IdentityOf(s, events[i]) == IdentityOf(s, events[j]) ==> HashOf(s, events[i]) == HashOf(s, events[j])
  {
    hide LocallySound, Linked, NotBackwards, Joins, StateAfter;
    SilentIsSound(s, events, i);
    SilentIsSound(s, events, j);
  }

  /** Every event after the first that does not begin a chain names the hash of the event before it. */
  lemma {:induction false} NamesPredecessor(s: Setting, events: seq<Event>, i: nat)
    requires Silent(StateAfter(s, events, |events|)) && 0 < i < |events|
    ensures Decodes(s, events[i - 1]) && Decodes(s, events[i])
    ensures FieldsOf(s, events[i]).prevHash
            == if FieldsOf(s, events[i]).sequence == 0 then None else Some(HashOf(s, events[i - 1]))
  {
    hide LocallySound, NotBackwards, Idempotent, Joins, StateAfter;
    SilentIsSound(s, events, i);
    SilentIsSound(s, events, i - 1);
  }

  // ----- Posture -----

  lemma {:induction false} StateKept(s: Setting, events: seq<Event>, i: nat, j: nat, kind: TransitionKind)
    requires i <= j <= |events|
    requires forall k :: i <= k < j ==> !Moves(s, events[k], kind)
    ensures StateBefore(s, events, i, kind) == StateBefore(s, events, j, kind)
    decreases j
  {
    if i < j {
      assert !Moves(s, events[j - 1], kind);
      StateKept(s, events, i, j - 1, kind);
    }
  }

  /** Consecutive transitions of a kind join end to end. */
  lemma {:induction false} TransitionsJoin(s: Setting, events: seq<Event>, i: nat, j: nat, kind: TransitionKind)
    requires Silent(StateAfter(s, events, |events|)) && i < j < |events|
    requires Moves(s, events[i], kind) && Moves(s, events[j], kind)
    requires forall k :: i < k < j ==> !Moves(s, events[k], kind)
    ensures TransitionAt(s, events[j]).value.fromState == TransitionAt(s, events[i]).value.toState
  {
    hide LocallySound, Linked, NotBackwards, Idempotent, StateAfter;
    SilentIsSound(s, events, j);
    StateKept(s, events, i + 1, j, kind);
  }

  /** The first transition of a kind starts at the declared state, if one was declared. */
  lemma {:induction false} FirstTransitionJoins(s: Setting, events: seq<Event>, j: nat, kind: TransitionKind)
    requires Silent(StateAfter(s, events, |events|)) && j < |events|
    requires Moves(s, events[j], kind) && forall k :: 0 <= k < j ==> !Moves(s, events[k], kind)
    ensures Declared(s, kind).Some? ==> TransitionAt(s, events[j]).value.fromState == Declared(s, kind).value
  {
    hide LocallySound, Linked, NotBackwards, Idempotent, StateAfter;
    SilentIsSound(s, events, j);
    StateKept(s, events, 0, j, kind);
  }

  /** Custody that is above the declared one was raised by a transition with both attestations. */
  lemma {:induction false} CustodyRiseIsDuallyAttested(s: Setting, events: seq<Event>, i: nat)
    requires Silent(StateAfter(s, events, |events|)) && i <= |events|
    requires Declared(s, CustodyModel).Some? && StateBefore(s, events, i, CustodyModel).Some?
    requires Raises(Declared(s, CustodyModel).value, StateBefore(s, events, i, CustodyModel).value)
    ensures exists k :: 0 <= k < i && Moves(s, events[k], CustodyModel)
                        && var transition := TransitionAt(s, events[k]).value;
                           && "prior" in transition.attestationClasses && "new" in transition.attestationClasses
                           && Raises(transition.fromState, transition.toState)
  {
    hide LocallySound, Linked, NotBackwards, Idempotent, StateAfter, Raises, DeclarationMatches;
    if i == 0 {
      RaisesExactly(Declared(s, CustodyModel).value, Declared(s, CustodyModel).value);
    } else {
      SilentIsSound(s, events, i - 1);
      if Moves(s, events[i - 1], CustodyModel) {
        CustodyKnown(s, events, i - 1);
        var transition := TransitionAt(s, events[i - 1]).value;
        if !Raises(transition.fromState, transition.toState) {
          RaisesExactly(transition.fromState, transition.toState);
          RaisesExactly(Declared(s, CustodyModel).value, transition.fromState);
          RaisesExactly(Declared(s, CustodyModel).value, transition.toState);
          CustodyRiseIsDuallyAttested(s, events, i - 1);
        }
      } else {
        CustodyRiseIsDuallyAttested(s, events, i - 1);
      }
    }
  }

  lemma {:induction false} CustodyKnown(s: Setting, events: seq<Event>, i: nat)
    requires i <= |events| && Declared(s, CustodyModel).Some?
    ensures StateBefore(s, events, i, CustodyModel).Some?
  {
    if i > 0 {
      CustodyKnown(s, events, i - 1);
    }
  }
}
