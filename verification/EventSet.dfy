/**
 * The single pass over a ledger's signed events. Digest, signature check and payload decoding are parameters; decoded
 * events are records.
 */
module EventSet {
  import opened AuthoredEvent
  import opened Bytes
  import opened CborHead
  import opened Preimages
  import opened Wrappers

  type Hash = Bytes
  type Kid = Bytes
  type Scope = scope: Bytes | Encodable(scope)

  const ALG_EDDSA: int := -8
  const SUITE_ID_PHASE_1: int := 1
  const REVOKED: nat := 3

  datatype Timestamp = Timestamp(seconds: nat, nanos: nat)

  /** Seconds decide before nanoseconds. */
  predicate Before(a: Timestamp, b: Timestamp) {
    a.seconds < b.seconds || (a.seconds == b.seconds && a.nanos < b.nanos)
  }

  /** A time with more seconds is later; with as many seconds, one with more nanoseconds. */
  lemma BeforeExactly(a: Timestamp, b: Timestamp)
    ensures a.seconds < b.seconds ==> Before(a, b)
    ensures a.seconds == b.seconds ==> (Before(a, b) <==> a.nanos < b.nanos)
    ensures a.seconds > b.seconds ==> !Before(a, b)
    ensures a.nanos < 1_000_000_000 && b.nanos < 1_000_000_000 ==>
              (Before(a, b) <==> a.seconds * 1_000_000_000 + a.nanos < b.seconds * 1_000_000_000 + b.nanos)
  {
  }

  datatype ArtifactType = EventArtifact | CheckpointArtifact | ManifestArtifact

  /** A parsed envelope. */
  datatype Event = Event(
    protectedHeader: Bytes,
    kid: Kid,
    alg: int,
    suiteId: int,
    artifactType: ArtifactType,
    payload: Option<Bytes>,
    signature: Bytes)

  datatype PayloadRef = Inline(ciphertext: Bytes) | External

  datatype TransitionKind = CustodyModel | DisclosureProfile

  datatype Transition = Transition(
    kind: TransitionKind,
    id: string,
    fromState: string,
    toState: string,
    declarationDigest: Hash,
    attestationClasses: seq<string>,
    scopeChange: Option<string>)

  /** Evidence that a key was destroyed. */
  datatype Erasure = Erasure(kid: Kid, keyClass: string, destroyedAt: Timestamp, attested: bool)

  /** What a payload decodes to. */
  datatype Fields = Fields(
    scope: Scope,
    idempotencyKey: Bytes,
    sequence: nat,
    prevHash: Option<Hash>,
    authoredAt: Timestamp,
    authorHash: Hash,
    contentHash: Hash,
    payloadRef: PayloadRef,
    wrapRecipients: seq<Kid>,
    erasure: Option<Erasure>,
    transition: Option<Transition>)

  datatype KeyEntry = KeyEntry(publicKey: Bytes, status: nat, validTo: Option<Timestamp>)

  datatype Domain = EventDomain | AuthorDomain | ContentDomain | DeclarationDomain

  datatype Setting = Setting(
    sha256: Bytes -> Hash,
    tag: Domain -> Bytes,
    signed: (Bytes, Bytes, Bytes) -> bool,
    decode: Bytes -> Option<Fields>,
    identify: Bytes -> Option<Scope>,
    custodyModel: Bytes -> Option<string>,
    disclosureProfile: Bytes -> Option<string>,
    registry: map<Kid, KeyEntry>,
    nonSigning: map<Kid, string>,
    initialDeclaration: Option<Bytes>,
    declaration: Option<Bytes>,
    classifyTamper: bool,
    expectedScope: Option<Bytes>,
    blobs: map<Hash, Bytes>)

  datatype FatalKind = KeyClassMismatch | UnresolvableKid | UnsupportedSuite | MalformedEvent | KeyRegistryInvalid

  datatype FailureKind =
    | SignatureInvalid | RevokedAuthority | ScopeMismatch | IdempotencyKeyPayloadMismatch | ContentHashMismatch
    | HashMismatch | AuthorPreimageInvalid
    | EventReorder | EventTruncation | PrevHashBreak | PrevHashMismatch
    | TimestampOrderViolation
    | StateContinuityMismatch | DeclarationDigestMismatch | AttestationInsufficient

  datatype Location = AtHash(hash: Hash) | AtIndex(index: nat)

  datatype Failure = Failure(kind: FailureKind, location: Location)

  /** What the erasure checks need of each event. */
  datatype Summary = Summary(authoredAt: Timestamp, signingKid: Kid, wrapRecipients: seq<Kid>, hash: Hash)

  datatype Evidence = Evidence(index: nat, erasure: Erasure, hash: Hash)

  datatype Outcome = Outcome(transition: Transition, index: nat, problems: seq<FailureKind>)

  /** The state each kind of transition is expected to leave, as far as it is known. */
  datatype Posture = Posture(custody: Option<string>, disclosure: Option<string>) {
    function Of(kind: TransitionKind): Option<string> {
      match kind
      case CustodyModel => custody
      case DisclosureProfile => disclosure
    }

    function Moved(kind: TransitionKind, to: string): Posture {
      match kind
      case CustodyModel => this.(custody := Some(to))
      case DisclosureProfile => this.(disclosure := Some(to))
    }
  }

  type Identity = (Scope, Bytes)

  datatype State = State(
    failures: seq<Failure>,
    previousHash: Option<Hash>,
    previousAt: Option<Timestamp>,
    idempotency: map<Identity, Hash>,
    posture: Posture,
    chain: seq<Summary>,
    erasures: seq<Evidence>,
    outcomes: seq<Outcome>)

  // ----- Hashes -----

  function Digest(s: Setting, domain: Domain, component: Bytes): Hash {
    s.sha256(DomainPreimage(s.tag(domain), component))
  }

  function EventHash(s: Setting, scope: Scope, payload: Bytes): Hash {
    Digest(s, EventDomain, CanonicalPreimage(scope, payload))
  }

  /** A decoded payload is a map, so it does not begin with a text string. */
  function AuthorHash(s: Setting, payload: Bytes): Option<Hash> {
    if payload != [] && payload[0] / 32 == 3 then None
    else
      match AuthoredPreimage(payload)
      case None => None
      case Some(authored) => Some(Digest(s, AuthorDomain, authored))
  }

  // ----- Checks of one event -----

  /** The registry entry an event is verified with. */
  function Admit(s: Setting, event: Event): Result<KeyEntry, FatalKind> {
    if event.kid !in s.registry then Err(if event.kid in s.nonSigning then KeyClassMismatch else UnresolvableKid)
    else if event.alg != ALG_EDDSA || event.suiteId != SUITE_ID_PHASE_1 || event.artifactType != EventArtifact
      then Err(UnsupportedSuite)
    else Ok(s.registry[event.kid])
  }

  /** A detached payload is never verified. */
  predicate VerifySignature(s: Setting, key: KeyEntry, event: Event): (r: bool)
    ensures r ==> event.payload.Some?
  {
    && event.payload.Some?
    && Encodable(event.protectedHeader) && Encodable(event.payload.value)
    && s.signed(key.publicKey, SigStructure(event.protectedHeader, event.payload.value), event.signature)
  }

  /** The canonical hash if the payload decodes, and the position otherwise. */
  function Locate(s: Setting, event: Event, index: nat): Location {
    match event.payload
    case None => AtIndex(index)
    case Some(payload) =>
      match s.identify(payload)
      case None => AtIndex(index)
      case Some(scope) => AtHash(EventHash(s, scope, payload))
  }

  predicate AuthoredAfterRevocation(key: KeyEntry, at: Timestamp) {
    key.status == REVOKED && key.validTo.Some? && Before(key.validTo.value, at)
  }

  predicate WrongScope(s: Setting, scope: Scope) {
    s.expectedScope.Some? && scope != s.expectedScope.value
  }

  /** Inline content must match; external content only if it is at hand. */
  predicate WrongContent(s: Setting, fields: Fields) {
    match fields.payloadRef
    case Inline(ciphertext) => Digest(s, ContentDomain, ciphertext) != fields.contentHash
    case External =>
      fields.contentHash in s.blobs && Digest(s, ContentDomain, s.blobs[fields.contentHash]) != fields.contentHash
  }

  function AuthorProblem(s: Setting, payload: Bytes, fields: Fields): Option<FailureKind> {
    match AuthorHash(s, payload)
    case None => Some(AuthorPreimageInvalid)
    case Some(hash) => if hash != fields.authorHash then Some(HashMismatch) else None
  }

  /** A ledger of one event that comes with its initial declaration need not name a predecessor. */
  predicate SkipsPrevHash(s: Setting, count: nat) {
    s.initialDeclaration.Some? && count == 1
  }

  function LinkProblem(s: Setting, count: nat, previous: Option<Hash>, fields: Fields): Option<FailureKind> {
    if SkipsPrevHash(s, count) then None
    else if fields.sequence == 0 then
      if fields.prevHash.Some? then Some(if s.classifyTamper then EventReorder else PrevHashMismatch) else None
    else if previous != fields.prevHash then
      Some(if !s.classifyTamper then PrevHashMismatch
           else if previous.None? && count == 1 then EventTruncation
           else if previous.None? then EventReorder
           else PrevHashBreak)
    else None
  }

  predicate Backwards(previous: Option<Timestamp>, at: Timestamp) {
    previous.Some? && Before(at, previous.value)
  }

  // ----- Posture -----

  function CustodyRank(state: string): nat {
    if state == "CM-A" then 3 else if state == "CM-B" then 2 else if state == "CM-C" then 1 else 0
  }

  predicate RequiresDualAttestation(transition: Transition) {
    match transition.kind
    case CustodyModel => CustodyRank(transition.toState) > CustodyRank(transition.fromState)
    case DisclosureProfile => transition.scopeChange != Some("Narrowing")
  }

  predicate DuallyAttested(transition: Transition) {
    "prior" in transition.attestationClasses && "new" in transition.attestationClasses
  }

  predicate WrongDeclaration(s: Setting, transition: Transition) {
    s.declaration.Some? && Digest(s, DeclarationDomain, s.declaration.value) != transition.declarationDigest
  }

  predicate Discontinuous(shadow: Option<string>, transition: Transition) {
    shadow.Some? && transition.fromState != shadow.value
  }

  function Problems(s: Setting, shadow: Option<string>, transition: Transition): seq<FailureKind> {
    var continuity := if Discontinuous(shadow, transition) then [StateContinuityMismatch] else [];
    var declared := if WrongDeclaration(s, transition) then continuity + [DeclarationDigestMismatch] else continuity;
    if RequiresDualAttestation(transition) && !DuallyAttested(transition) then declared + [AttestationInsufficient]
    else declared
  }

  /** Only the first problem of a transition becomes a failure of its event. */
  function Transit(s: Setting, hash: Hash, index: nat, transition: Transition, state: State): State {
    var problems := Problems(s, state.posture.Of(transition.kind), transition);
    var failures := Note(state.failures, if problems == [] then None else Some(problems[0]), hash);
    state.(failures := failures, posture := state.posture.Moved(transition.kind, transition.toState),
           outcomes := state.outcomes + [Outcome(transition, index, problems)])
  }

  // ----- The pass -----

  function Note(failures: seq<Failure>, problem: Option<FailureKind>, hash: Hash): seq<Failure> {
    match problem
    case None => failures
    case Some(kind) => failures + [Failure(kind, AtHash(hash))]
  }

  function When(bad: bool, kind: FailureKind): Option<FailureKind> {
    if bad then Some(kind) else None
  }

  function EventFailures(s: Setting, count: nat, key: KeyEntry, payload: Bytes, fields: Fields, hash: Hash,
                         state: State)
    : seq<Failure>
  {
    var identity := (fields.scope, fields.idempotencyKey);
    var diverges := identity in state.idempotency && state.idempotency[identity] != hash;
    var f := Note(state.failures, When(AuthoredAfterRevocation(key, fields.authoredAt), RevokedAuthority), hash);
    var f := Note(f, When(WrongScope(s, fields.scope), ScopeMismatch), hash);
    var f := Note(f, When(diverges, IdempotencyKeyPayloadMismatch), hash);
    var f := Note(f, When(WrongContent(s, fields), ContentHashMismatch), hash);
    var f := Note(f, AuthorProblem(s, payload, fields), hash);
    var f := Note(f, LinkProblem(s, count, state.previousHash, fields), hash);
    Note(f, When(Backwards(state.previousAt, fields.authoredAt), TimestampOrderViolation), hash)
  }

  /** An identity keeps the hash it was first seen with. */
  function Remember(index: map<Identity, Hash>, identity: Identity, hash: Hash): map<Identity, Hash> {
    if identity in index then index else index[identity := hash]
  }

  function Record(s: Setting, count: nat, key: KeyEntry, event: Event, payload: Bytes, fields: Fields, i: nat,
                  state: State)
    : State
  {
    var hash := EventHash(s, fields.scope, payload);
    var next := State(
      EventFailures(s, count, key, payload, fields, hash, state),
      Some(hash),
      Some(fields.authoredAt),
      Remember(state.idempotency, (fields.scope, fields.idempotencyKey), hash),
      state.posture,
      state.chain + [Summary(fields.authoredAt, event.kid, fields.wrapRecipients, hash)],
      if fields.erasure.None? then state.erasures else state.erasures + [Evidence(i, fields.erasure.value, hash)],
      state.outcomes);
    if fields.transition.None? then next else Transit(s, hash, i, fields.transition.value, next)
  }

  function Step(s: Setting, count: nat, event: Event, i: nat, state: State): Result<State, FatalKind> {
    match Admit(s, event)
    case Err(fatal) => Err(fatal)
    case Ok(key) =>
      if !VerifySignature(s, key, event) then
        Ok(state.(failures := state.failures + [Failure(SignatureInvalid, Locate(s, event, i))]))
      else
        match s.decode(event.payload.value)
        case None => Err(MalformedEvent)
        case Some(fields) =>
          if key.status == REVOKED && key.validTo.None? then Err(KeyRegistryInvalid)
          else Ok(Record(s, count, key, event, event.payload.value, fields, i, state))
  }

  function InitialPosture(s: Setting): Posture {
    match s.initialDeclaration
    case None => Posture(None, None)
    case Some(bytes) => Posture(s.custodyModel(bytes), s.disclosureProfile(bytes))
  }

  /** The state after the first `i` events, unless one of them was fatal. */
  function StateAfter(s: Setting, events: seq<Event>, i: nat): Result<State, FatalKind>
    requires i <= |events|
  {
    if i == 0 then Ok(State([], None, None, map[], InitialPosture(s), [], [], []))
    else
      match StateAfter(s, events, i - 1)
      case Err(fatal) => Err(fatal)
      case Ok(state) => Step(s, |events|, events[i - 1], i - 1, state)
  }

  lemma {:induction false} FatalStays(s: Setting, events: seq<Event>, i: nat, n: nat)
    requires i <= n <= |events| && StateAfter(s, events, i).Err?
    ensures StateAfter(s, events, n) == StateAfter(s, events, i)
    decreases n
  {
    if i < n {
      FatalStays(s, events, i, n - 1);
    }
  }

  method VerifyEvents(s: Setting, events: seq<Event>) returns (r: Result<State, FatalKind>)
    ensures r == StateAfter(s, events, |events|)
  {
    hide Admit, VerifySignature, EventHash, AuthorProblem, WrongContent, WrongScope, AuthoredAfterRevocation;
    hide LinkProblem, Backwards, Problems, Locate, Posture.Of, Posture.Moved;
    var failures: seq<Failure> := [];
    var previousHash: Option<Hash>, previousAt: Option<Timestamp> := None, None;
    var idempotency: map<Identity, Hash> := map[];
    var posture := InitialPosture(s);
    var chain: seq<Summary>, erasures: seq<Evidence>, outcomes: seq<Outcome> := [], [], [];
    for i := 0 to |events|
      invariant StateAfter(s, events, i)
                == Ok(State(failures, previousHash, previousAt, idempotency, posture, chain, erasures, outcomes))
    {
      var event := events[i];
      ghost var state :=
        State(failures, previousHash, previousAt, idempotency, posture, chain, erasures, outcomes);
      assert StateAfter(s, events, i + 1) == Step(s, |events|, event, i, state);
      var admitted := Admit(s, event);
      if admitted.Err? {
        FatalStays(s, events, i + 1, |events|);
        return Err(admitted.error);
      }
      var key := admitted.value;
      if !VerifySignature(s, key, event) {
        failures := failures + [Failure(SignatureInvalid, Locate(s, event, i))];
        continue;
      }
      var payload := event.payload.value;
      var decoded := s.decode(payload);
      if decoded.None? {
        FatalStays(s, events, i + 1, |events|);
        return Err(MalformedEvent);
      }
      var fields := decoded.value;
      var hash := EventHash(s, fields.scope, payload);
      if key.status == REVOKED && key.validTo.None? {
        FatalStays(s, events, i + 1, |events|);
        return Err(KeyRegistryInvalid);
      }
      failures := Note(failures, When(AuthoredAfterRevocation(key, fields.authoredAt), RevokedAuthority), hash);
      failures := Note(failures, When(WrongScope(s, fields.scope), ScopeMismatch), hash);
      var identity := (fields.scope, fields.idempotencyKey);
      if identity !in idempotency {
        idempotency := idempotency[identity := hash];
      } else {
        failures := Note(failures, When(idempotency[identity] != hash, IdempotencyKeyPayloadMismatch), hash);
      }
      failures := Note(failures, When(WrongContent(s, fields), ContentHashMismatch), hash);
      failures := Note(failures, AuthorProblem(s, payload, fields), hash);
      failures := Note(failures, LinkProblem(s, |events|, previousHash, fields), hash);
      previousHash := Some(hash);
      failures := Note(failures, When(Backwards(previousAt, fields.authoredAt), TimestampOrderViolation), hash);
      previousAt := Some(fields.authoredAt);
      assert failures == EventFailures(s, |events|, key, payload, fields, hash, state);
      chain := chain + [Summary(fields.authoredAt, event.kid, fields.wrapRecipients, hash)];
      if fields.erasure.Some? {
        erasures := erasures + [Evidence(i, fields.erasure.value, hash)];
      }
      if fields.transition.Some? {
        var transition := fields.transition.value;
        var problems := Problems(s, posture.Of(transition.kind), transition);
        failures := Note(failures, if problems == [] then None else Some(problems[0]), hash);
        posture := posture.Moved(transition.kind, transition.toState);
        outcomes := outcomes + [Outcome(transition, i, problems)];
      }
    }
    return Ok(State(failures, previousHash, previousAt, idempotency, posture, chain, erasures, outcomes));
  }
}
