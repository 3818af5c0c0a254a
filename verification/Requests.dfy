/**
 game-event-server/src/modules/event-request: the reward-request service as one undisturbed
 call, the eligibility check, and the choice of validator. The collection has a unique index
 on (userId, eventId).
 */
module Requests {
  import opened Prelude
  import opened Events

  datatype Status = PENDING | APPROVED | REJECTED | FAILED

  datatype Reason = InactiveEvent | OutsideWindow | AlreadyRequested | ConditionNotMet

  type Metadata = map<string, string>

  datatype Request = Request(
    userId: string,
    eventId: string,
    status: Status,
    reason: Option<Reason>,
    metadata: Metadata,
    processedAt: int,
    processedBy: string)

  /** What a message asks for. A body without metadata makes the handler throw at once. */
  datatype Payload = Payload(userId: string, eventId: string, metadata: Option<Metadata>)

  // ---------------------------------------------------------------- validators

  /** The two registered strategies, uninterpreted. */
  datatype Validators = Validators(login: (string, Condition) -> bool, friendInvitation: (string, Condition) -> bool)

  datatype Strategy = LoginStrategy | FriendInvitationStrategy | AlwaysFails

  function GetStrategy(kind: EventType): Strategy {
    match kind
    case LOGIN => LoginStrategy
    case FRIEND_INVITATION => FriendInvitationStrategy
    case _ => AlwaysFails
  }

  predicate ValidateCondition(v: Validators, userId: string, kind: EventType, condition: Condition) {
    match GetStrategy(kind)
    case LoginStrategy => v.login(userId, condition)
    case FriendInvitationStrategy => v.friendInvitation(userId, condition)
    case AlwaysFails => false
  }

  // ---------------------------------------------------------------- the collection

  function FindExisting(requests: seq<Request>, userId: string, eventId: string): (r: Option<Request>)
    ensures r.Some? ==> r.value in requests && r.value.userId == userId && r.value.eventId == eventId
    ensures r.None? ==> forall x <- requests :: !(x.userId == userId && x.eventId == eventId)
  {
    if requests == [] then None
    else if requests[0].userId == userId && requests[0].eventId == eventId then Some(requests[0])
    else FindExisting(requests[1..], userId, eventId)
  }

  predicate Stored(requests: seq<Request>, userId: string, eventId: string) {
    FindExisting(requests, userId, eventId).Some?
  }

  /** The unique index refuses a second request for a pair. */
  function InsertUnique(requests: seq<Request>, r: Request): Option<seq<Request>> {
    if Stored(requests, r.userId, r.eventId) then None else Some(requests + [r])
  }

  ghost predicate UniquePairs(requests: seq<Request>) {
    forall i, j | 0 <= i < j < |requests| ::
      !(requests[i].userId == requests[j].userId && requests[i].eventId == requests[j].eventId)
  }

  lemma {:induction false} FindExistingAppend(requests: seq<Request>, r: Request, userId: string, eventId: string)
    ensures FindExisting(requests + [r], userId, eventId)
         == if Stored(requests, userId, eventId) then FindExisting(requests, userId, eventId)
            else if r.userId == userId && r.eventId == eventId then Some(r) else None
  {
    if requests == [] {
      assert requests + [r] == [r];
    } else {
      FindExistingAppend(requests[1..], r, userId, eventId);
      assert (requests + [r])[1..] == requests[1..] + [r];
    }
  }

  // ---------------------------------------------------------------- one call

  predicate InWindow(event: Event, now: int) {
    event.startDate <= now <= event.endDate
  }

  function NewRequest(p: Payload, met: bool, now: int): Request {
    Request(p.userId, p.eventId, if met then APPROVED else FAILED, if met then None else Some(ConditionNotMet),
            p.metadata.GetOr(map[]), now, "system")
  }

  datatype Outcome =
    | Created(request: Request)
    | Existing(request: Request)
    | EventMissing
    | Refused(reason: Reason)
    | TypeError
    | ServerError

  /** `cached` is whether the idempotency key was found in Redis. */
  function CreateOutcome(v: Validators, docs: Docs, requests: seq<Request>, p: Payload, checkedAt: int, savedAt: int, cached: bool): Outcome {
    if p.metadata.None? then TypeError
    else
      match FindOne(docs, p.eventId, false)
      case None => EventMissing
      case Some(event) =>
        if event.status != ACTIVE then Refused(InactiveEvent)
        else if !InWindow(event, checkedAt) then Refused(OutsideWindow)
        else
          match FindExisting(requests, p.userId, p.eventId)
          case Some(r) => if cached then Existing(r) else Refused(AlreadyRequested)
          case None => Created(NewRequest(p, ValidateCondition(v, p.userId, event.kind, event.condition), savedAt))
  }

  /** LOGIN events ask the login validator, FRIEND_INVITATION events the other, no other type is ever met. */
  predicate ConditionMet(v: Validators, userId: string, event: Event) {
    || (event.kind == LOGIN && v.login(userId, event.condition))
    || (event.kind == FRIEND_INVITATION && v.friendInvitation(userId, event.condition))
  }

  lemma ConditionMeaning(v: Validators, userId: string, event: Event)
    ensures ValidateCondition(v, userId, event.kind, event.condition) <==> ConditionMet(v, userId, event)
  {}

  ghost predicate PairStored(requests: seq<Request>, userId: string, eventId: string) {
    exists x <- requests :: x.userId == userId && x.eventId == eventId
  }

  /** The event is there, undeleted, active, and `now` lies in its window, bounds included. */
  predicate OpenAt(docs: Docs, eventId: string, now: int) {
    && eventId in docs && docs[eventId].deletedAt.None? && docs[eventId].status == ACTIVE
    && docs[eventId].startDate <= now && now <= docs[eventId].endDate
  }

  /** Every outcome of a request, each with exactly the situation it belongs to. */
  ghost predicate OutcomeSpelledOut(v: Validators, docs: Docs, requests: seq<Request>, p: Payload, checkedAt: int, savedAt: int, cached: bool, r: Outcome) {
    var there := p.eventId in docs && docs[p.eventId].deletedAt.None?;
    var stored := PairStored(requests, p.userId, p.eventId);
    && (r == TypeError <==> p.metadata.None?)
    && (r == EventMissing <==> p.metadata.Some? && !there)
    && (r == Refused(InactiveEvent) <==> p.metadata.Some? && there && docs[p.eventId].status != ACTIVE)
    && (r == Refused(OutsideWindow) <==>
          && p.metadata.Some? && there && docs[p.eventId].status == ACTIVE
          && (checkedAt < docs[p.eventId].startDate || docs[p.eventId].endDate < checkedAt))
    && (r == Refused(AlreadyRequested) <==> p.metadata.Some? && OpenAt(docs, p.eventId, checkedAt) && stored && !cached)
    && (r.Existing? <==> p.metadata.Some? && OpenAt(docs, p.eventId, checkedAt) && stored && cached)
    && (r.Existing? ==> r.request in requests && r.request.userId == p.userId && r.request.eventId == p.eventId)
    && (r.Created? <==> p.metadata.Some? && OpenAt(docs, p.eventId, checkedAt) && !stored)
    && (r.Created? ==>
          && r.request.userId == p.userId && r.request.eventId == p.eventId && Some(r.request.metadata) == p.metadata
          && r.request.processedAt == savedAt && r.request.processedBy == "system"
          && r.request.status == (if ConditionMet(v, p.userId, docs[p.eventId]) then APPROVED else FAILED)
          && r.request.reason == (if ConditionMet(v, p.userId, docs[p.eventId]) then None else Some(ConditionNotMet)))
    && r != ServerError
  }

  lemma StoredMeaning(requests: seq<Request>, userId: string, eventId: string)
    ensures Stored(requests, userId, eventId) <==> PairStored(requests, userId, eventId)
  {}

  lemma OutcomeMeaning(v: Validators, docs: Docs, requests: seq<Request>, p: Payload, checkedAt: int, savedAt: int, cached: bool)
    ensures OutcomeSpelledOut(v, docs, requests, p, checkedAt, savedAt, cached,
                              CreateOutcome(v, docs, requests, p, checkedAt, savedAt, cached))
  {
    StoredMeaning(requests, p.userId, p.eventId);
  }

  /** A new request is APPROVED for a met login or invitation condition and FAILED for any other type. */
  lemma ApprovedMeansMet(v: Validators, docs: Docs, requests: seq<Request>, p: Payload, checkedAt: int, savedAt: int, cached: bool)
    requires CreateOutcome(v, docs, requests, p, checkedAt, savedAt, cached).Created?
    ensures p.eventId in docs
    ensures var r, e := CreateOutcome(v, docs, requests, p, checkedAt, savedAt, cached).request, docs[p.eventId];
            && (r.status == APPROVED <==>
                  || (e.kind == LOGIN && v.login(p.userId, e.condition))
                  || (e.kind == FRIEND_INVITATION && v.friendInvitation(p.userId, e.condition)))
            && (r.status == FAILED <==> r.status != APPROVED)
            && (e.kind != LOGIN && e.kind != FRIEND_INVITATION ==> r.status == FAILED)
  {
    OutcomeMeaning(v, docs, requests, p, checkedAt, savedAt, cached);
  }

  class RewardRequestService {
    var requests: seq<Request>
    const events: EventService
    const validators: Validators

    constructor (events: EventService, validators: Validators)
      ensures requests == [] && this.events == events && this.validators == validators
    {
      this.requests := [];
      this.events := events;
      this.validators := validators;
    }

    method FindExistingRequest(userId: string, eventId: string) returns (r: Option<Request>)
      ensures r == FindExisting(requests, userId, eventId)
    {
      var i := 0;
      while i < |requests|
        invariant i <= |requests|
        invariant FindExisting(requests, userId, eventId) == FindExisting(requests[i..], userId, eventId)
      {
        if requests[i].userId == userId && requests[i].eventId == eventId {
          return Some(requests[i]);
        }
        i := i + 1;
      }
      return None;
    }

    method Save(r: Request) returns (ok: bool)
      modifies this
      ensures ok == InsertUnique(old(requests), r).Some?
      ensures ok <==> !PairStored(old(requests), r.userId, r.eventId)
      ensures requests == InsertUnique(old(requests), r).GetOr(old(requests))
      ensures old(UniquePairs(requests)) ==> UniquePairs(requests)
    {
      var existing := FindExistingRequest(r.userId, r.eventId);
      ok := existing.None?;
      if ok {
        requests := requests + [r];
      }
    }

    method CreateEventRewardRequest(p: Payload, checkedAt: int, savedAt: int, cached: bool) returns (r: Outcome)
      modifies this
      ensures r == CreateOutcome(validators, events.events, old(requests), p, checkedAt, savedAt, cached)
      ensures requests == old(requests) + if r.Created? then [r.request] else []
      ensures old(UniquePairs(requests)) ==> UniquePairs(requests)
      ensures OutcomeSpelledOut(validators, events.events, old(requests), p, checkedAt, savedAt, cached, r)
    {
      OutcomeMeaning(validators, events.events, requests, p, checkedAt, savedAt, cached);
      if p.metadata.None? {
        return TypeError;
      }
      var found := events.FindById(p.eventId, false);
      if found.Err? {
        return EventMissing;
      }
      var event := found.value;
      if event.status != ACTIVE {
        return Refused(InactiveEvent);
      }
      if checkedAt < event.startDate || checkedAt > event.endDate {
        return Refused(OutsideWindow);
      }
      if cached {
        var existing := FindExistingRequest(p.userId, p.eventId);
        if existing.Some? {
          return Existing(existing.value);
        }
      }
      var existing := FindExistingRequest(p.userId, p.eventId);
      if existing.Some? {
        return Refused(AlreadyRequested);
      }
      var isConditionMet := ValidateCondition(validators, p.userId, event.kind, event.condition);
      var status := if isConditionMet then APPROVED else FAILED;
      var reason := if isConditionMet then None else Some(ConditionNotMet);
      var createdRequest := Request(p.userId, p.eventId, status, reason, p.metadata.value, savedAt, "system");
      var saved := Save(createdRequest);
      r := if saved then Created(createdRequest) else ServerError;
    }
  }

  // ---------------------------------------------------------------- eligibility

  datatype Eligibility = Eligible | Ineligible(reason: Reason)

  function CheckEligibility(v: Validators, requests: seq<Request>, userId: string, eventId: string, event: Event, now: int): Eligibility {
    if event.status != ACTIVE then Ineligible(InactiveEvent)
    else if now < event.startDate || now > event.endDate then Ineligible(OutsideWindow)
    else if Stored(requests, userId, eventId) then Ineligible(AlreadyRequested)
    else if !ValidateCondition(v, userId, event.kind, event.condition) then Ineligible(ConditionNotMet)
    else Eligible
  }

  /**
   The eligibility check predicts the request exactly: at the same moment, a request with
   metadata inserts a new APPROVED entry if and only if the check says eligible, and otherwise
   the check's reason says what the request meets: a refusal for that reason, a stored entry,
   or a new FAILED entry carrying the reason. It says eligible for an open event without a stored
   request whose condition is met, and names the first of these that fails.
   */
  lemma EligibleIffApproved(v: Validators, docs: Docs, requests: seq<Request>, p: Payload, now: int, cached: bool)
    requires FindOne(docs, p.eventId, false).Some?
    ensures var event := FindOne(docs, p.eventId, false).value;
            var e := CheckEligibility(v, requests, p.userId, p.eventId, event, now);
            var r := CreateOutcome(v, docs, requests, p, now, now, cached);
            && ((r.Created? && r.request.status == APPROVED) <==> e == Eligible && p.metadata.Some?)
            && (p.metadata.Some? && e.Ineligible? ==>
                  match e.reason
                  case InactiveEvent => r == Refused(InactiveEvent)
                  case OutsideWindow => r == Refused(OutsideWindow)
                  case AlreadyRequested => r == Refused(AlreadyRequested) || (cached && r.Existing?)
                  case ConditionNotMet => r.Created? && r.request.status == FAILED && r.request.reason == Some(ConditionNotMet))
    ensures var event := FindOne(docs, p.eventId, false).value;
            var stored := PairStored(requests, p.userId, p.eventId);
            var met := || (event.kind == LOGIN && v.login(p.userId, event.condition))
                       || (event.kind == FRIEND_INVITATION && v.friendInvitation(p.userId, event.condition));
            CheckEligibility(v, requests, p.userId, p.eventId, event, now)
            == if event.status == INACTIVE then Ineligible(InactiveEvent)
               else if now < event.startDate || event.endDate < now then Ineligible(OutsideWindow)
               else if stored then Ineligible(AlreadyRequested)
               else if met then Eligible else Ineligible(ConditionNotMet)
  {
  }
}
