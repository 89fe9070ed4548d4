/** What a pass over any ledger reports, event by event, in terms of the earlier events whose signatures are valid. */
module LedgerReport {
  import opened AuthoredEvent
  import opened Bytes
  import opened EventSet
  import opened LedgerProperties
  import opened Preimages
  import opened Wrappers

  /** Why an event stops the pass. */
  predicate FatalAs(s: Setting, event: Event, kind: FatalKind) {
    match kind
    case KeyClassMismatch => event.kid !in s.registry && event.kid in s.nonSigning
    case UnresolvableKid => event.kid !in s.registry && event.kid !in s.nonSigning
    case UnsupportedSuite => event.kid in s.registry && !Admissible(s, event)
    case MalformedEvent => Genuine(s, event) && !Decodes(s, event)
    case KeyRegistryInvalid =>
      && Genuine(s, event) && Decodes(s, event)
      && s.registry[event.kid].status == 3 && s.registry[event.kid].validTo.None?
  }

  predicate IsFatal(s: Setting, event: Event) {
    exists kind :: FatalAs(s, event, kind)
  }

  /** The event's signature is valid and its payload is read. */
  predicate IsRead(s: Setting, event: Event): (r: bool)
    ensures r ==> event.kid in s.registry && Decodes(s, event)
  {
    Genuine(s, event) && Decodes(s, event)
  }

  /** The event read last among the first `i`. */
  function LastRead(s: Setting, events: seq<Event>, i: nat): (r: Option<nat>)
    requires i <= |events|
    ensures r.Some? ==>
              && r.value < i && IsRead(s, events[r.value])
              && forall k :: r.value < k < i ==> !IsRead(s, events[k])
    ensures r.None? ==> forall k :: 0 <= k < i ==> !IsRead(s, events[k])
  {
    if i == 0 then None else if IsRead(s, events[i - 1]) then Some(i - 1) else LastRead(s, events, i - 1)
  }

  /** The event that was the first to be read with this identity. */
  function FirstWith(s: Setting, events: seq<Event>, i: nat, identity: Identity): (r: Option<nat>)
    requires i <= |events|
    ensures r.Some? ==> r.value < i && IsRead(s, events[r.value]) && IdentityOf(s, events[r.value]) == identity
    ensures forall k :: 0 <= k < (if r.Some? then r.value else i) && IsRead(s, events[k]) ==>
                          IdentityOf(s, events[k]) != identity
  {
    if i == 0 then None
    else
      var earlier := FirstWith(s, events, i - 1, identity);
      if earlier.Some? then earlier
      else if IsRead(s, events[i - 1]) && IdentityOf(s, events[i - 1]) == identity then Some(i - 1)
      else None
  }

  /** Where the last transition of a kind among the events read so far ended, or else the declared state. */
  function StateRead(s: Setting, events: seq<Event>, i: nat, kind: TransitionKind): Option<string>
    requires i <= |events|
  {
    if i == 0 then Declared(s, kind)
    else if IsRead(s, events[i - 1]) && Moves(s, events[i - 1], kind) then
      Some(TransitionAt(s, events[i - 1]).value.toState)
    else StateRead(s, events, i - 1, kind)
  }

  function HashBefore(s: Setting, events: seq<Event>, i: nat): Option<Hash>
    requires i <= |events|
  {
    match LastRead(s, events, i)
    case None => None
    case Some(k) => Some(HashOf(s, events[k]))
  }

  function TimeBefore(s: Setting, events: seq<Event>, i: nat): Option<Timestamp>
    requires i <= |events|
  {
    match LastRead(s, events, i)
    case None => None
    case Some(k) => Some(FieldsOf(s, events[k]).authoredAt)
  }

  /** The first event with the identity of event `i` had another hash. */
  predicate Diverges(s: Setting, events: seq<Event>, i: nat)
    requires i < |events| && Decodes(s, events[i])
  {
    var first := FirstWith(s, events, i, IdentityOf(s, events[i]));
    first.Some? && HashOf(s, events[first.value]) != HashOf(s, events[i])
  }

  /** The transition does not start where the last one of its kind ended. */
  predicate Breaks(s: Setting, events: seq<Event>, i: nat, transition: Transition)
    requires i <= |events|
  {
    var shadow := StateRead(s, events, i, transition.kind);
    shadow.Some? && transition.fromState != shadow.value
  }

  /** The link an event must carry: none at the start of a chain, else the hash of the event read before it. */
  predicate LinksTo(fields: Fields, before: Option<Hash>) {
    fields.prevHash == if fields.sequence == 0 then None else before
  }

  /** Event `i` is a lone event without its past, one out of place, or one with a broken hash. */
  predicate BreaksAs(s: Setting, events: seq<Event>, i: nat, kind: FailureKind)
    requires i < |events| && IsRead(s, events[i])
  {
    var fields, before := FieldsOf(s, events[i]), HashBefore(s, events, i);
    && !(s.initialDeclaration.Some? && |events| == 1)
    && match kind
       case PrevHashMismatch => !s.classifyTamper && !LinksTo(fields, before)
       case EventTruncation =>
         s.classifyTamper && |events| == 1 && fields.sequence > 0 && fields.prevHash.Some?
       case EventReorder =>
         && s.classifyTamper && fields.prevHash.Some?
         && (fields.sequence == 0 || (|events| > 1 && LastRead(s, events, i).None?))
       case PrevHashBreak =>
         s.classifyTamper && fields.sequence > 0 && LastRead(s, events, i).Some? && fields.prevHash != before
       case _ => false
  }

  /** What makes a kind of failure be reported of an event that is read. */
  predicate FailsRead(s: Setting, events: seq<Event>, i: nat, kind: FailureKind)
    requires i < |events| && IsRead(s, events[i])
  {
    var event, fields := events[i], FieldsOf(s, events[i]);
    var key, payload, transition := s.registry[event.kid], event.payload.value, fields.transition;
    match kind
    case SignatureInvalid => false
    case RevokedAuthority => key.status == 3 && key.validTo.Some? && Before(key.validTo.value, fields.authoredAt)
    case ScopeMismatch => s.expectedScope.Some? && fields.scope != s.expectedScope.value
    case IdempotencyKeyPayloadMismatch => Diverges(s, events, i)
    case ContentHashMismatch => !ContentMatches(s, fields)
    case AuthorPreimageInvalid => !HasAuthored(payload)
    case HashMismatch => HasAuthored(payload) && !AuthorMatches(s, payload, fields)
    case TimestampOrderViolation =>
      TimeBefore(s, events, i).Some? && Before(fields.authoredAt, TimeBefore(s, events, i).value)
    case StateContinuityMismatch => transition.Some? && Breaks(s, events, i, transition.value)
    case DeclarationDigestMismatch =>
      transition.Some? && !Breaks(s, events, i, transition.value) && !DeclarationMatches(s, transition.value)
    case AttestationInsufficient =>
      && transition.Some? && !Breaks(s, events, i, transition.value) && DeclarationMatches(s, transition.value)
      && NeedsBoth(transition.value) && !HasBoth(transition.value)
    case _ => BreaksAs(s, events, i, kind)
  }

  /** An admitted event is either not signed, which is all that is reported of it, or read. */
  predicate Fails(s: Setting, events: seq<Event>, i: nat, kind: FailureKind)
    requires i < |events|
  {
    if IsRead(s, events[i]) then FailsRead(s, events, i, kind)
    else kind == SignatureInvalid && Admissible(s, events[i]) && !Signed(s, events[i])
  }

  /** An event is named by its hash, one with an invalid signature only if its scope can be read. */
  function Where(s: Setting, event: Event, i: nat): Location {
    if event.payload.None? then AtIndex(i)
    else
      var payload := event.payload.value;
      match if IsRead(s, event) then Some(FieldsOf(s, event).scope) else s.identify(payload)
      case None => AtIndex(i)
      case Some(scope) => AtHash(s.sha256(DomainPreimage(s.tag(EventDomain), CanonicalPreimage(scope, payload))))
  }

  /** The order in which the failures of one event are reported. */
  const KINDS: seq<FailureKind> :=
    [SignatureInvalid, RevokedAuthority, ScopeMismatch, IdempotencyKeyPayloadMismatch, ContentHashMismatch,
     AuthorPreimageInvalid, HashMismatch, PrevHashMismatch, EventReorder, EventTruncation, PrevHashBreak,
     TimestampOrderViolation, StateContinuityMismatch, DeclarationDigestMismatch, AttestationInsufficient]

  function Reported(s: Setting, events: seq<Event>, i: nat, kinds: seq<FailureKind>): seq<Failure>
    requires i < |events|
  {
    if kinds == [] then []
    else
      (if Fails(s, events, i, kinds[0]) then [Failure(kinds[0], Where(s, events[i], i))] else [])
      + Reported(s, events, i, kinds[1..])
  }

  /** Everything reported about event `i`. */
  function ReportAt(s: Setting, events: seq<Event>, i: nat): seq<Failure>
    requires i < |events|
  {
    Reported(s, events, i, KINDS)
  }

  ghost predicate NoFatal(s: Setting, events: seq<Event>, i: nat)
    requires i <= |events|
  {
    forall k :: 0 <= k < i ==> !IsFatal(s, events[k])
  }

  function ReportUpTo(s: Setting, events: seq<Event>, i: nat): seq<Failure>
    requires i <= |events| && NoFatal(s, events, i)
  {
    if i == 0 then [] else ReportUpTo(s, events, i - 1) + ReportAt(s, events, i - 1)
  }

  /** The state after any events that did not stop the pass. */
  ghost predicate Holds(s: Setting, events: seq<Event>, i: nat, state: State)
    requires i <= |events|
  {
    && state.previousHash == HashBefore(s, events, i)
    && state.previousAt == TimeBefore(s, events, i)
    && (forall kind :: state.posture.Of(kind) == StateRead(s, events, i, kind))
    && IndexesFirst(s, events, i, state.idempotency)
  }

  ghost predicate IndexesFirst(s: Setting, events: seq<Event>, i: nat, idempotency: map<Identity, Hash>)
    requires i <= |events|
  {
    forall id :: FirstHash(s, events, i, id) == if id in idempotency then Some(idempotency[id]) else None
  }

  function FirstHash(s: Setting, events: seq<Event>, i: nat, identity: Identity): Option<Hash>
    requires i <= |events|
  {
    match FirstWith(s, events, i, identity)
    case None => None
    case Some(k) => Some(HashOf(s, events[k]))
  }

  // ----- The pass reports exactly that -----

  function PostureProblem(s: Setting, events: seq<Event>, i: nat): Option<FailureKind>
    requires i < |events| && Decodes(s, events[i])
  {
    match FieldsOf(s, events[i]).transition
    case None => None
    case Some(transition) =>
      var problems := Problems(s, StateRead(s, events, i, transition.kind), transition);
      if problems == [] then None else Some(problems[0])
  }

  function At(problem: Option<FailureKind>, hash: Hash): seq<Failure> {
    Note([], problem, hash)
  }

  /** What the pass notes about an event it reads. */
  function Noted(s: Setting, events: seq<Event>, i: nat): seq<Failure>
    requires i < |events| && IsRead(s, events[i])
  {
    var event := events[i];
    var key, fields, hash := s.registry[event.kid], FieldsOf(s, event), HashOf(s, event);
    At(When(AuthoredAfterRevocation(key, fields.authoredAt), RevokedAuthority), hash)
    + At(When(WrongScope(s, fields.scope), ScopeMismatch), hash)
    + At(When(Diverges(s, events, i), IdempotencyKeyPayloadMismatch), hash)
    + At(When(WrongContent(s, fields), ContentHashMismatch), hash)
    + At(AuthorProblem(s, event.payload.value, fields), hash)
    + At(LinkProblem(s, |events|, HashBefore(s, events, i), fields), hash)
    + At(When(Backwards(TimeBefore(s, events, i), fields.authoredAt), TimestampOrderViolation), hash)
    + At(PostureProblem(s, events, i), hash)
  }

  lemma {:induction false} ReportedSum(s: Setting, events: seq<Event>, i: nat, a: seq<FailureKind>,
                                       b: seq<FailureKind>)
    requires i < |events|
    ensures Reported(s, events, i, a + b) == Reported(s, events, i, a) + Reported(s, events, i, b)
  {
    hide Fails, Where;
    if a == [] {
      assert a + b == b;
    } else {
      ReportedSum(s, events, i, a[1..], b);
      assert (a + b)[1..] == a[1..] + b;
    }
  }

  /** A list of kinds of which at most one is reported. */
  lemma {:induction false} ReportedOne(s: Setting, events: seq<Event>, i: nat, kinds: seq<FailureKind>,
                                       problem: Option<FailureKind>)
    requires i < |events| && IsRead(s, events[i])
    requires forall k :: 0 <= k < |kinds| ==> (Fails(s, events, i, kinds[k]) <==> problem == Some(kinds[k]))
    requires problem.Some? ==> problem.value in kinds
    requires forall j, k :: 0 <= j < k < |kinds| ==> kinds[j] != kinds[k]
    ensures Reported(s, events, i, kinds) == At(problem, HashOf(s, events[i]))
  {
    hide Fails, FieldsOf, DomainPreimage, CanonicalPreimage;
    if kinds != [] {
      var rest := kinds[1..];
      assert forall k :: 0 < k < |kinds| ==> kinds[k] == rest[k - 1];
      if problem == Some(kinds[0]) {
        ReportedNone(s, events, i, rest);
      } else {
        ReportedOne(s, events, i, rest, problem);
      }
    }
  }

  lemma {:induction false} ReportedNone(s: Setting, events: seq<Event>, i: nat, kinds: seq<FailureKind>)
    requires i < |events| && forall k :: 0 <= k < |kinds| ==> !Fails(s, events, i, kinds[k])
    ensures Reported(s, events, i, kinds) == []
  {
    hide Fails, Where;
    if kinds != [] {
      ReportedNone(s, events, i, kinds[1..]);
    }
  }

  /** The kinds the pass notes one by one. */
  lemma {:induction false} SingleKinds(s: Setting, events: seq<Event>, i: nat)
    requires i < |events| && IsRead(s, events[i])
    ensures var event, fields := events[i], FieldsOf(s, events[i]);
            && !Fails(s, events, i, SignatureInvalid)
            && (Fails(s, events, i, RevokedAuthority)
                <==> AuthoredAfterRevocation(s.registry[event.kid], fields.authoredAt))
            && (Fails(s, events, i, ScopeMismatch) <==> WrongScope(s, fields.scope))
            && (Fails(s, events, i, IdempotencyKeyPayloadMismatch) <==> Diverges(s, events, i))
            && (Fails(s, events, i, ContentHashMismatch) <==> WrongContent(s, fields))
            && (Fails(s, events, i, TimestampOrderViolation)
                <==> Backwards(TimeBefore(s, events, i), fields.authoredAt))
  {
    hide FieldsOf, Diverges, TimeBefore, Before, DomainPreimage, BreaksAs, Breaks, IsRead;
  }

  lemma {:induction false} AuthorKinds(s: Setting, events: seq<Event>, i: nat, kind: FailureKind)
    requires i < |events| && IsRead(s, events[i])
    requires kind == AuthorPreimageInvalid || kind == HashMismatch
    ensures Fails(s, events, i, kind)
            <==> AuthorProblem(s, events[i].payload.value, FieldsOf(s, events[i])) == Some(kind)
    ensures var problem := AuthorProblem(s, events[i].payload.value, FieldsOf(s, events[i]));
            problem.Some? ==> problem.value == AuthorPreimageInvalid || problem.value == HashMismatch
  {
    hide FieldsOf, DomainPreimage, AuthoredPreimage, IsRead;
  }

  lemma {:induction false} LinkKinds(s: Setting, events: seq<Event>, i: nat, kind: FailureKind)
    requires i < |events| && IsRead(s, events[i])
    requires kind.PrevHashMismatch? || kind.EventTruncation? || kind.EventReorder? || kind.PrevHashBreak?
    ensures var problem := LinkProblem(s, |events|, HashBefore(s, events, i), FieldsOf(s, events[i]));
            && (Fails(s, events, i, kind) <==> problem == Some(kind))
            && (problem.Some? ==>
                  problem.value in [PrevHashMismatch, EventReorder, EventTruncation, PrevHashBreak])
  {
    hide FieldsOf, HashOf, IsRead;
  }

  lemma {:induction false} PostureKinds(s: Setting, events: seq<Event>, i: nat, kind: FailureKind)
    requires i < |events| && IsRead(s, events[i])
    requires kind.StateContinuityMismatch? || kind.DeclarationDigestMismatch? || kind.AttestationInsufficient?
    ensures Fails(s, events, i, kind) <==> PostureProblem(s, events, i) == Some(kind)
    ensures PostureProblem(s, events, i).Some? ==>
              PostureProblem(s, events, i).value
              in [StateContinuityMismatch, DeclarationDigestMismatch, AttestationInsufficient]
  {
    hide FieldsOf, StateRead, DomainPreimage, IsRead, CustodyRank, Raises;
    var transition := FieldsOf(s, events[i]).transition;
    if transition.Some? {
      RaisesExactly(transition.value.fromState, transition.value.toState);
    }
  }

  /** What the pass notes about an event it reads is what is reported of it. */
  lemma {:induction false} NotedIsReported(s: Setting, events: seq<Event>, i: nat)
    requires i < |events| && IsRead(s, events[i])
    ensures Noted(s, events, i) == ReportAt(s, events, i)
  {
    hide Fails, Reported, ReportAt, At, FieldsOf, HashOf, IsRead, AuthoredAfterRevocation, WrongScope, WrongContent,
         Diverges, AuthorProblem, LinkProblem, Backwards, PostureProblem, TimeBefore, HashBefore, When;
    SinglesReported(s, events, i);
    GroupsReported(s, events, i);
    NothingBefore(Reported(s, events, i, [RevokedAuthority]));
    KindsSum(s, events, i);
  }

  lemma NothingBefore(failures: seq<Failure>)
    ensures [] + failures == failures
  {
  }

  lemma {:induction false} SinglesReported(s: Setting, events: seq<Event>, i: nat)
    requires i < |events| && IsRead(s, events[i])
    ensures var event, fields, hash := events[i], FieldsOf(s, events[i]), HashOf(s, events[i]);
            && Reported(s, events, i, [SignatureInvalid]) == []
            && Reported(s, events, i, [RevokedAuthority])
               == At(When(AuthoredAfterRevocation(s.registry[event.kid], fields.authoredAt), RevokedAuthority), hash)
            && Reported(s, events, i, [ScopeMismatch]) == At(When(WrongScope(s, fields.scope), ScopeMismatch), hash)
            && Reported(s, events, i, [IdempotencyKeyPayloadMismatch])
               == At(When(Diverges(s, events, i), IdempotencyKeyPayloadMismatch), hash)
            && Reported(s, events, i, [ContentHashMismatch])
               == At(When(WrongContent(s, fields), ContentHashMismatch), hash)
            && Reported(s, events, i, [TimestampOrderViolation])
               == At(When(Backwards(TimeBefore(s, events, i), fields.authoredAt), TimestampOrderViolation), hash)
  {
    hide Fails, Reported, At, FieldsOf, HashOf, IsRead, AuthoredAfterRevocation, WrongScope, WrongContent, Diverges,
         Backwards, TimeBefore;
    var event, fields, hash := events[i], FieldsOf(s, events[i]), HashOf(s, events[i]);
    SingleKinds(s, events, i);
    ReportedOne(s, events, i, [SignatureInvalid], None);
    ReportedOne(s, events, i, [RevokedAuthority],
                When(AuthoredAfterRevocation(s.registry[event.kid], fields.authoredAt), RevokedAuthority));
    ReportedOne(s, events, i, [ScopeMismatch], When(WrongScope(s, fields.scope), ScopeMismatch));
    ReportedOne(s, events, i, [IdempotencyKeyPayloadMismatch],
                When(Diverges(s, events, i), IdempotencyKeyPayloadMismatch));
    ReportedOne(s, events, i, [ContentHashMismatch], When(WrongContent(s, fields), ContentHashMismatch));
    ReportedOne(s, events, i, [TimestampOrderViolation],
                When(Backwards(TimeBefore(s, events, i), fields.authoredAt), TimestampOrderViolation));
    NothingAt(hash);
  }

  lemma {:induction false} GroupsReported(s: Setting, events: seq<Event>, i: nat)
    requires i < |events| && IsRead(s, events[i])
    ensures var fields, hash := FieldsOf(s, events[i]), HashOf(s, events[i]);
            && Reported(s, events, i, [AuthorPreimageInvalid, HashMismatch])
               == At(AuthorProblem(s, events[i].payload.value, fields), hash)
            && Reported(s, events, i, [PrevHashMismatch, EventReorder, EventTruncation, PrevHashBreak])
               == At(LinkProblem(s, |events|, HashBefore(s, events, i), fields), hash)
            && Reported(s, events, i, [StateContinuityMismatch, DeclarationDigestMismatch, AttestationInsufficient])
               == At(PostureProblem(s, events, i), hash)
  {
    hide Fails, Reported, At, FieldsOf, HashOf, IsRead, AuthorProblem, LinkProblem, PostureProblem, HashBefore;
    var fields := FieldsOf(s, events[i]);
    AuthorKinds(s, events, i, AuthorPreimageInvalid);
    AuthorKinds(s, events, i, HashMismatch);
    ReportedOne(s, events, i, [AuthorPreimageInvalid, HashMismatch],
                AuthorProblem(s, events[i].payload.value, fields));
    LinkKinds(s, events, i, PrevHashMismatch);
    LinkKinds(s, events, i, EventReorder);
    LinkKinds(s, events, i, EventTruncation);
    LinkKinds(s, events, i, PrevHashBreak);
    ReportedOne(s, events, i, [PrevHashMismatch, EventReorder, EventTruncation, PrevHashBreak],
                LinkProblem(s, |events|, HashBefore(s, events, i), fields));
    PostureKinds(s, events, i, StateContinuityMismatch);
    PostureKinds(s, events, i, DeclarationDigestMismatch);
    PostureKinds(s, events, i, AttestationInsufficient);
    ReportedOne(s, events, i, [StateContinuityMismatch, DeclarationDigestMismatch, AttestationInsufficient],
                PostureProblem(s, events, i));
  }

  lemma {:induction false} KindsSum(s: Setting, events: seq<Event>, i: nat)
    requires i < |events|
    ensures ReportAt(s, events, i)
            == Reported(s, events, i, [SignatureInvalid]) + Reported(s, events, i, [RevokedAuthority])
               + Reported(s, events, i, [ScopeMismatch]) + Reported(s, events, i, [IdempotencyKeyPayloadMismatch])
               + Reported(s, events, i, [ContentHashMismatch])
               + Reported(s, events, i, [AuthorPreimageInvalid, HashMismatch])
               + Reported(s, events, i, [PrevHashMismatch, EventReorder, EventTruncation, PrevHashBreak])
               + Reported(s, events, i, [TimestampOrderViolation])
               + Reported(s, events, i,
                          [StateContinuityMismatch, DeclarationDigestMismatch, AttestationInsufficient])
  {
    hide Reported;
    ReportedSum(s, events, i, KINDS[..12], KINDS[12..]);
    ReportedSum(s, events, i, KINDS[..11], [TimestampOrderViolation]);
    ReportedSum(s, events, i, KINDS[..7], [PrevHashMismatch, EventReorder, EventTruncation, PrevHashBreak]);
    ReportedSum(s, events, i, KINDS[..5], [AuthorPreimageInvalid, HashMismatch]);
    ReportedSum(s, events, i, KINDS[..4], [ContentHashMismatch]);
    ReportedSum(s, events, i, KINDS[..3], [IdempotencyKeyPayloadMismatch]);
    ReportedSum(s, events, i, KINDS[..2], [ScopeMismatch]);
    ReportedSum(s, events, i, [SignatureInvalid], [RevokedAuthority]);
    assert KINDS == KINDS[..12] + KINDS[12..];
    assert KINDS[..12] == KINDS[..11] + [TimestampOrderViolation];
    assert KINDS[..11] == KINDS[..7] + [PrevHashMismatch, EventReorder, EventTruncation, PrevHashBreak];
    assert KINDS[..7] == KINDS[..5] + [AuthorPreimageInvalid, HashMismatch];
    assert KINDS[..5] == KINDS[..4] + [ContentHashMismatch];
    assert KINDS[..4] == KINDS[..3] + [IdempotencyKeyPayloadMismatch];
    assert KINDS[..3] == KINDS[..2] + [ScopeMismatch];
    assert KINDS[..2] == [SignatureInvalid] + [RevokedAuthority];
  }

  /** Of an event that is not signed only that is reported. */
  lemma {:induction false} UnsignedIsReported(s: Setting, events: seq<Event>, i: nat)
    requires i < |events| && !IsFatal(s, events[i]) && !IsRead(s, events[i])
    ensures ReportAt(s, events, i) == [Failure(SignatureInvalid, Where(s, events[i], i))]
    ensures Where(s, events[i], i) == Locate(s, events[i], i)
  {
    NotFatal(s, events[i]);
    ReportedNone(s, events, i, KINDS[1..]);
    hide Reported, DomainPreimage, CanonicalPreimage, IsRead, Signed, Admissible;
    assert Fails(s, events, i, KINDS[0]);
    ReportedFirst(s, events, i, KINDS);
  }

  lemma ReportedFirst(s: Setting, events: seq<Event>, i: nat, kinds: seq<FailureKind>)
    requires i < |events| && kinds != [] && Fails(s, events, i, kinds[0])
    ensures Reported(s, events, i, kinds)
            == [Failure(kinds[0], Where(s, events[i], i))] + Reported(s, events, i, kinds[1..])
  {
  }

  lemma {:induction false} NotFatal(s: Setting, event: Event)
    ensures IsFatal(s, event)
            <==> || !Admissible(s, event)
                 || (Signed(s, event)
                     && (!Decodes(s, event)
                         || (s.registry[event.kid].status == 3 && s.registry[event.kid].validTo.None?)))
  {
    hide Signed, Decodes;
    if event.kid !in s.registry {
      assert FatalAs(s, event, if event.kid in s.nonSigning then KeyClassMismatch else UnresolvableKid);
    } else if !Admissible(s, event) {
      assert FatalAs(s, event, UnsupportedSuite);
    } else if Signed(s, event) && !Decodes(s, event) {
      assert FatalAs(s, event, MalformedEvent);
    } else if Signed(s, event) && s.registry[event.kid].status == 3 && s.registry[event.kid].validTo.None? {
      assert FatalAs(s, event, KeyRegistryInvalid);
    }
  }

  lemma NoteAppends(failures: seq<Failure>, problem: Option<FailureKind>, hash: Hash)
    ensures Note(failures, problem, hash) == failures + At(problem, hash)
  {
  }

  lemma {:induction false} EventFailuresAppend(s: Setting, count: nat, key: KeyEntry, payload: Bytes, fields: Fields,
                                               hash: Hash, state: State)
    ensures var identity := (fields.scope, fields.idempotencyKey);
            var diverges := identity in state.idempotency && state.idempotency[identity] != hash;
            EventFailures(s, count, key, payload, fields, hash, state)
            == state.failures
               + At(When(AuthoredAfterRevocation(key, fields.authoredAt), RevokedAuthority), hash)
               + At(When(WrongScope(s, fields.scope), ScopeMismatch), hash)
               + At(When(diverges, IdempotencyKeyPayloadMismatch), hash)
               + At(When(WrongContent(s, fields), ContentHashMismatch), hash)
               + At(AuthorProblem(s, payload, fields), hash)
               + At(LinkProblem(s, count, state.previousHash, fields), hash)
               + At(When(Backwards(state.previousAt, fields.authoredAt), TimestampOrderViolation), hash)
  {
    hide AuthoredAfterRevocation, WrongScope, WrongContent, AuthorProblem, LinkProblem, Backwards, Note, At;
    var identity := (fields.scope, fields.idempotencyKey);
    var diverges := identity in state.idempotency && state.idempotency[identity] != hash;
    var p1 := When(AuthoredAfterRevocation(key, fields.authoredAt), RevokedAuthority);
    var p2 := When(WrongScope(s, fields.scope), ScopeMismatch);
    var p3 := When(diverges, IdempotencyKeyPayloadMismatch);
    var p4 := When(WrongContent(s, fields), ContentHashMismatch);
    var p5, p6 := AuthorProblem(s, payload, fields), LinkProblem(s, count, state.previousHash, fields);
    var p7 := When(Backwards(state.previousAt, fields.authoredAt), TimestampOrderViolation);
    var f1 := Note(state.failures, p1, hash);
    var f2 := Note(f1, p2, hash);
    var f3 := Note(f2, p3, hash);
    var f4 := Note(f3, p4, hash);
    var f5 := Note(f4, p5, hash);
    var f6 := Note(f5, p6, hash);
    NoteAppends(state.failures, p1, hash);
    NoteAppends(f1, p2, hash);
    NoteAppends(f2, p3, hash);
    NoteAppends(f3, p4, hash);
    NoteAppends(f4, p5, hash);
    NoteAppends(f5, p6, hash);
    NoteAppends(f6, p7, hash);
  }

  lemma {:induction false} StepFatal(s: Setting, count: nat, event: Event, i: nat, state: State)
    ensures Step(s, count, event, i, state).Err? <==> IsFatal(s, event)
    ensures forall kind :: Step(s, count, event, i, state) == Err(kind) <==> FatalAs(s, event, kind)
    ensures !IsFatal(s, event) && !IsRead(s, event) ==>
              Step(s, count, event, i, state)
              == Ok(state.(failures := state.failures + [Failure(SignatureInvalid, Locate(s, event, i))]))
    ensures !IsFatal(s, event) && IsRead(s, event) ==>
              Step(s, count, event, i, state)
              == Ok(Record(s, count, s.registry[event.kid], event, event.payload.value, FieldsOf(s, event), i, state))
  {
    AdmitsExactly(s, event);
    NotFatal(s, event);
    hide VerifySignature, Signed, Record, Locate;
  }

  lemma RegroupAll(f: seq<Failure>, a: seq<Failure>, b: seq<Failure>, c: seq<Failure>, d: seq<Failure>,
                   e: seq<Failure>, g: seq<Failure>, h: seq<Failure>, last: seq<Failure>)
    ensures f + a + b + c + d + e + g + h + last == f + (a + b + c + d + e + g + h + last)
  {
  }

  lemma {:induction false} SameDivergence(s: Setting, events: seq<Event>, i: nat, state: State)
    requires i < |events| && Decodes(s, events[i]) && IndexesFirst(s, events, i, state.idempotency)
    ensures var identity := IdentityOf(s, events[i]);
            Diverges(s, events, i)
            <==> identity in state.idempotency && state.idempotency[identity] != HashOf(s, events[i])
  {
    hide IdentityOf, HashOf, FirstWith, IsRead;
    assert FirstHash(s, events, i, IdentityOf(s, events[i]))
        == if IdentityOf(s, events[i]) in state.idempotency then Some(state.idempotency[IdentityOf(s, events[i])])
           else None;
  }

  /** The failures one read event adds are the ones reported for it. */
  lemma {:induction false} RecordReports(s: Setting, events: seq<Event>, i: nat, state: State)
    requires i < |events| && Holds(s, events, i, state) && IsRead(s, events[i])
    ensures Record(s, |events|, s.registry[events[i].kid], events[i], events[i].payload.value, FieldsOf(s, events[i]),
                   i, state).failures == state.failures + Noted(s, events, i)
  {
    hide AuthoredAfterRevocation, WrongScope, WrongContent, AuthorProblem, LinkProblem, Backwards, Note, At, When,
         Problems, IndexesFirst, Diverges, HashBefore, TimeBefore, StateRead, DomainPreimage, CanonicalPreimage,
         EventFailures, Signed;
    var event, key, fields, hash :=
      events[i], s.registry[events[i].kid], FieldsOf(s, events[i]), HashOf(s, events[i]);
    var payload := event.payload.value;
    EventFailuresAppend(s, |events|, key, payload, fields, hash, state);
    SameDivergence(s, events, i, state);
    RegroupAll(state.failures,
               At(When(AuthoredAfterRevocation(key, fields.authoredAt), RevokedAuthority), hash),
               At(When(WrongScope(s, fields.scope), ScopeMismatch), hash),
               At(When(Diverges(s, events, i), IdempotencyKeyPayloadMismatch), hash),
               At(When(WrongContent(s, fields), ContentHashMismatch), hash),
               At(AuthorProblem(s, payload, fields), hash),
               At(LinkProblem(s, |events|, HashBefore(s, events, i), fields), hash),
               At(When(Backwards(TimeBefore(s, events, i), fields.authoredAt), TimestampOrderViolation), hash),
               At(PostureProblem(s, events, i), hash));
    NoteAppends(EventFailures(s, |events|, key, payload, fields, hash, state), PostureProblem(s, events, i), hash);
    NothingAt(hash);
  }

  lemma NothingAt(hash: Hash)
    ensures At(None, hash) == []
  {
  }

  lemma {:induction false} IndexesNext(s: Setting, events: seq<Event>, i: nat, idempotency: map<Identity, Hash>)
    requires i < |events| && IndexesFirst(s, events, i, idempotency)
    ensures if IsRead(s, events[i]) then
              IndexesFirst(s, events, i + 1, Remember(idempotency, IdentityOf(s, events[i]), HashOf(s, events[i])))
            else IndexesFirst(s, events, i + 1, idempotency)
  {
    hide IdentityOf, HashOf, IsRead;
    forall id
      ensures FirstHash(s, events, i + 1, id)
              == if FirstHash(s, events, i, id).Some? then FirstHash(s, events, i, id)
                 else if IsRead(s, events[i]) && IdentityOf(s, events[i]) == id then Some(HashOf(s, events[i]))
                 else None
    {
    }
  }

  lemma {:induction false} RecordHolds(s: Setting, events: seq<Event>, i: nat, state: State)
    requires i < |events| && Holds(s, events, i, state) && IsRead(s, events[i])
    ensures Holds(s, events, i + 1, Record(s, |events|, s.registry[events[i].kid], events[i], events[i].payload.value,
                                           FieldsOf(s, events[i]), i, state))
  {
    hide EventFailures, Note, Problems, IndexesFirst, DomainPreimage, CanonicalPreimage, Remember, Signed;
    IndexesNext(s, events, i, state.idempotency);
    var next := Record(s, |events|, s.registry[events[i].kid], events[i], events[i].payload.value,
                       FieldsOf(s, events[i]), i, state);
    assert next.idempotency == Remember(state.idempotency, IdentityOf(s, events[i]), HashOf(s, events[i]));
    forall kind
      ensures next.posture.Of(kind) == StateRead(s, events, i + 1, kind)
    {
      assert kind == CustodyModel || kind == DisclosureProfile;
    }
  }

  lemma {:induction false} SkipHolds(s: Setting, events: seq<Event>, i: nat, state: State, failures: seq<Failure>)
    requires i < |events| && Holds(s, events, i, state) && !IsRead(s, events[i])
    ensures Holds(s, events, i + 1, state.(failures := failures))
  {
    hide IndexesFirst, IsRead;
    IndexesNext(s, events, i, state.idempotency);
  }

  /**
   * The pass stops at the first fatal event and otherwise reports, in order, exactly what is wrong with each event
   * relative to the events read before it.
   */
  lemma {:induction false} RunReports(s: Setting, events: seq<Event>, i: nat)
    requires i <= |events|
    ensures StateAfter(s, events, i).Ok? <==> NoFatal(s, events, i)
    ensures NoFatal(s, events, i) ==> Holds(s, events, i, StateAfter(s, events, i).value)
    ensures NoFatal(s, events, i) ==> StateAfter(s, events, i).value.failures == ReportUpTo(s, events, i)
  {
    hide Step, IsFatal, Holds, ReportAt;
    if i == 0 {
      HoldsAtFirst(s, events);
    } else {
      RunReports(s, events, i - 1);
      if NoFatal(s, events, i - 1) {
        StepReports(s, events, i - 1, StateAfter(s, events, i - 1).value);
      }
    }
  }

  lemma HoldsAtFirst(s: Setting, events: seq<Event>)
    ensures Holds(s, events, 0, State([], None, None, map[], InitialPosture(s), [], [], []))
  {
  }

  lemma {:induction false} StepReports(s: Setting, events: seq<Event>, i: nat, state: State)
    requires i < |events| && Holds(s, events, i, state)
    ensures var r := Step(s, |events|, events[i], i, state);
            && (r.Ok? <==> !IsFatal(s, events[i]))
            && (r.Ok? ==>
                  && Holds(s, events, i + 1, r.value)
                  && r.value.failures == state.failures + ReportAt(s, events, i))
  {
    hide *;
    StepFatal(s, |events|, events[i], i, state);
    if !IsFatal(s, events[i]) {
      if IsRead(s, events[i]) {
        RecordReports(s, events, i, state);
        NotedIsReported(s, events, i);
        RecordHolds(s, events, i, state);
      } else {
        UnsignedIsReported(s, events, i);
        SkipHolds(s, events, i, state, state.failures + [Failure(SignatureInvalid, Locate(s, events[i], i))]);
      }
    }
  }

  // ----- Why a pass stops, and which kinds it reports -----

  /** The pass stops with a kind exactly if the first event that is fatal is so for that reason. */
  lemma {:induction false} StopsExactly(s: Setting, events: seq<Event>, i: nat, kind: FatalKind)
    requires i <= |events|
    ensures StateAfter(s, events, i) == Err(kind)
            <==> exists k :: 0 <= k < i && NoFatal(s, events, k) && FatalAs(s, events[k], kind)
  {
    hide Step, IsFatal, FatalAs;
    if i > 0 {
      StopsExactly(s, events, i - 1, kind);
      RunReports(s, events, i - 1);
      if StateAfter(s, events, i - 1).Ok? {
        StepFatal(s, |events|, events[i - 1], i - 1, StateAfter(s, events, i - 1).value);
        forall k | 0 <= k < i - 1
          ensures !FatalAs(s, events[k], kind)
        {
          FatalIs(s, events[k], kind);
        }
      } else {
        assert !NoFatal(s, events, i - 1);
      }
    }
  }

  lemma FatalIs(s: Setting, event: Event, kind: FatalKind)
    ensures FatalAs(s, event, kind) ==> IsFatal(s, event)
  {
  }

  lemma {:induction false} ReportedHas(s: Setting, events: seq<Event>, i: nat, kinds: seq<FailureKind>,
                                       failure: Failure)
    requires i < |events|
    ensures failure in Reported(s, events, i, kinds)
            <==> failure.kind in kinds && Fails(s, events, i, failure.kind)
                 && failure.location == Where(s, events[i], i)
  {
    hide Fails, Where;
    if kinds != [] {
      ReportedHas(s, events, i, kinds[1..], failure);
      assert kinds == [kinds[0]] + kinds[1..];
    }
  }

  /** Some event among the first `i` fails in this way and is where the failure says. */
  ghost predicate SomeFails(s: Setting, events: seq<Event>, i: nat, failure: Failure)
    requires i <= |events|
  {
    exists k :: 0 <= k < i && Fails(s, events, k, failure.kind) && failure.location == Where(s, events[k], k)
  }

  lemma EveryKind(kind: FailureKind)
    ensures kind in KINDS
  {
    match kind
    case SignatureInvalid => assert KINDS[0] == kind;
    case RevokedAuthority => assert KINDS[1] == kind;
    case ScopeMismatch => assert KINDS[2] == kind;
    case IdempotencyKeyPayloadMismatch => assert KINDS[3] == kind;
    case ContentHashMismatch => assert KINDS[4] == kind;
    case AuthorPreimageInvalid => assert KINDS[5] == kind;
    case HashMismatch => assert KINDS[6] == kind;
    case PrevHashMismatch => assert KINDS[7] == kind;
    case EventReorder => assert KINDS[8] == kind;
    case EventTruncation => assert KINDS[9] == kind;
    case PrevHashBreak => assert KINDS[10] == kind;
    case TimestampOrderViolation => assert KINDS[11] == kind;
    case StateContinuityMismatch => assert KINDS[12] == kind;
    case DeclarationDigestMismatch => assert KINDS[13] == kind;
    case AttestationInsufficient => assert KINDS[14] == kind;
  }

  lemma {:induction false} ReportHas(s: Setting, events: seq<Event>, i: nat, failure: Failure)
    requires i <= |events| && NoFatal(s, events, i)
    ensures failure in ReportUpTo(s, events, i) <==> SomeFails(s, events, i, failure)
  {
    hide IsFatal, Reported, Fails, Where;
    if i > 0 {
      ReportHas(s, events, i - 1, failure);
      ReportedHas(s, events, i - 1, KINDS, failure);
      EveryKind(failure.kind);
    }
  }

  /** A run that is not stopped reports a failure exactly if some event fails in that way. */
  lemma {:induction false} FailuresExactly(s: Setting, events: seq<Event>, failure: Failure)
    requires StateAfter(s, events, |events|).Ok?
    ensures failure in StateAfter(s, events, |events|).value.failures <==> SomeFails(s, events, |events|, failure)
  {
    hide StateAfter, SomeFails, ReportUpTo, Holds, IsFatal;
    RunReports(s, events, |events|);
    ReportHas(s, events, |events|, failure);
  }

  // ----- What the pass collects for later ones -----

  /** The summaries of the events read among the first `i`. */
  function ChainRead(s: Setting, events: seq<Event>, i: nat): seq<Summary>
    requires i <= |events|
  {
    if i == 0 then []
    else if !IsRead(s, events[i - 1]) then ChainRead(s, events, i - 1)
    else ChainRead(s, events, i - 1) + [SummaryOf(s, events[i - 1])]
  }

  /** The evidence of destroyed keys in the events read among the first `i`. */
  function EvidenceRead(s: Setting, events: seq<Event>, i: nat): seq<Evidence>
    requires i <= |events|
  {
    if i == 0 then []
    else
      var event, earlier := events[i - 1], EvidenceRead(s, events, i - 1);
      if IsRead(s, event) && FieldsOf(s, event).erasure.Some? then
        earlier + [Evidence(i - 1, FieldsOf(s, event).erasure.value, HashOf(s, event))]
      else earlier
  }

  /** All that is wrong with a transition, in the order in which it is listed. */
  function Defects(s: Setting, events: seq<Event>, i: nat, transition: Transition): seq<FailureKind>
    requires i <= |events|
  {
    (if Breaks(s, events, i, transition) then [StateContinuityMismatch] else [])
    + (if DeclarationMatches(s, transition) then [] else [DeclarationDigestMismatch])
    + (if NeedsBoth(transition) && !HasBoth(transition) then [AttestationInsufficient] else [])
  }

  /** The outcomes of the transitions of the events read among the first `i`. */
  function OutcomesRead(s: Setting, events: seq<Event>, i: nat): seq<Outcome>
    requires i <= |events|
  {
    if i == 0 then []
    else
      var event, earlier := events[i - 1], OutcomesRead(s, events, i - 1);
      if IsRead(s, event) && TransitionAt(s, event).Some? then
        var transition := TransitionAt(s, event).value;
        earlier + [Outcome(transition, i - 1, Defects(s, events, i - 1, transition))]
      else earlier
  }

  lemma {:induction false} ProblemsAreDefects(s: Setting, events: seq<Event>, i: nat, transition: Transition)
    requires i <= |events|
    ensures Problems(s, StateRead(s, events, i, transition.kind), transition) == Defects(s, events, i, transition)
  {
    hide StateRead, DomainPreimage, CustodyRank, Raises;
    RaisesExactly(transition.fromState, transition.toState);
  }

  ghost predicate Collects(s: Setting, events: seq<Event>, i: nat, state: State)
    requires i <= |events|
  {
    && state.chain == ChainRead(s, events, i) && state.erasures == EvidenceRead(s, events, i)
    && state.outcomes == OutcomesRead(s, events, i)
  }

  lemma {:induction false} RecordCollects(s: Setting, events: seq<Event>, i: nat, state: State)
    requires i < |events| && Holds(s, events, i, state) && Collects(s, events, i, state) && IsRead(s, events[i])
    ensures Collects(s, events, i + 1,
                     Record(s, |events|, s.registry[events[i].kid], events[i], events[i].payload.value,
                            FieldsOf(s, events[i]), i, state))
  {
    hide EventFailures, Note, Problems, Defects, IndexesFirst, DomainPreimage, CanonicalPreimage, Remember, Signed,
         Genuine, StateRead;
    if FieldsOf(s, events[i]).transition.Some? {
      ProblemsAreDefects(s, events, i, FieldsOf(s, events[i]).transition.value);
    }
  }

  /** A run that is not stopped collects exactly the summaries, evidence and outcomes of the events it reads. */
  lemma {:induction false} RunCollects(s: Setting, events: seq<Event>, i: nat)
    requires i <= |events| && StateAfter(s, events, i).Ok?
    ensures Collects(s, events, i, StateAfter(s, events, i).value)
  {
    hide Step, IsFatal, Holds, IsRead, Record;
    if i > 0 {
      RunCollects(s, events, i - 1);
      RunReports(s, events, i - 1);
      var state := StateAfter(s, events, i - 1).value;
      StepFatal(s, |events|, events[i - 1], i - 1, state);
      if IsRead(s, events[i - 1]) {
        RecordCollects(s, events, i - 1, state);
      }
    }
  }
}
