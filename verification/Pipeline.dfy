/**
 The reward-request pipeline as a step relation: a queue, any number of deliveries being
 handled at once (each stopping at its awaits), copies waiting to be published again, the
 stored requests, and an event collection that goes on being edited. What Redis answers is
 chosen freely at every read, and any await may fail. The default exchange delivers to the queue
 named by the routing key and to no other; a message may have come by any exchange.

 Assumed: one interceptor layer with acknowledging on, a channel that does not fail, and no
 process crash between rejecting a delivery and publishing its copy.
 */
module Pipeline {
  import opened Prelude
  import opened Events
  import opened Requests
  import opened Interceptor
  import EventRuns

  /** `queue` is the name of the queue the deliveries come from. */
  datatype Config = Config(validators: Validators, policy: RetryPolicy, refuses: bool, queue: string)

  /** Where `createEventRewardRequest` stands: before which await, or how it ended. */
  datatype Phase =
    | Started
    | HasEvent(event: Event)
    | Admitted(event: Event, checkedAt: int)       // active and in its window; Redis comes next
    | CachedLookup(event: Event, checkedAt: int)   // the key was there
    | Looking(event: Event, checkedAt: int)
    | Validating(event: Event, checkedAt: int)
    | Inserting(event: Event, checkedAt: int, met: bool)
    | Succeeded
    | Failed

  datatype Handler = Handler(msg: Message, phase: Phase)

  datatype State = State(
    now: nat,
    events: EventRuns.State,
    queue: seq<Message>,
    running: seq<Handler>,
    delayed: seq<Delayed>,
    acked: seq<nat>,
    lost: seq<nat>,             // copies published to where no queue is
    requests: seq<Request>,
    published: set<nat>,
    started: multiset<nat>,     // handler runs begun, by message
    failed: multiset<nat>)      // ... and ended in an error

  datatype Step =
    | Publish(id: nat, payload: Payload, fields: Fields)
    | Deliver(i: nat)
    | Proceed(i: nat, cached: bool)
    | Fault(i: nat, applied: bool)                 // an await throws; an insert may yet have been made
    | Settle(i: nat)
    | Republish(i: nat)                            // to the default exchange
    | Tick(ms: nat)
    | EditEvent(step: EventRuns.Step)

  predicate Finished(p: Phase) {
    p.Succeeded? || p.Failed?
  }

  /** One stretch of the handler between two awaits. */
  function Advance(v: Validators, now: int, docs: Docs, requests: seq<Request>, h: Handler, cached: bool): (Phase, seq<Request>)
    requires !Finished(h.phase)
  {
    var p := h.msg.payload;
    match h.phase
    case Started =>
      var found := FindOne(docs, p.eventId, false);
      (if p.metadata.None? || found.None? then Failed else HasEvent(found.value), requests)
    case HasEvent(e) =>
      (if e.status == ACTIVE && InWindow(e, now) then Admitted(e, now) else Failed, requests)
    case Admitted(e, t) =>
      (if cached then CachedLookup(e, t) else Looking(e, t), requests)
    case CachedLookup(e, t) =>
      (if Stored(requests, p.userId, p.eventId) then Succeeded else Looking(e, t), requests)
    case Looking(e, t) =>
      (if Stored(requests, p.userId, p.eventId) then Failed else Validating(e, t), requests)
    case Validating(e, t) =>
      (Inserting(e, t, ValidateCondition(v, p.userId, e.kind, e.condition)), requests)
    case Inserting(e, t, met) =>
      match InsertUnique(requests, NewRequest(p, met, now))
      case Some(rs) => (Succeeded, rs)
      case None => (Failed, requests)
  }

  predicate PastCheck(p: Phase) {
    p.Admitted? || p.CachedLookup? || p.Looking? || p.Validating? || p.Inserting?
  }

  /** Where a handler can come to, and with what in hand. */
  lemma AdvanceCases(v: Validators, now: int, docs: Docs, requests: seq<Request>, h: Handler, cached: bool)
    requires !Finished(h.phase)
    ensures var p, next := h.msg.payload, Advance(v, now, docs, requests, h, cached).0;
            && Rank(next) < Rank(h.phase)
            && (next.HasEvent? ==> FindOne(docs, p.eventId, false) == Some(next.event))
            && (PastCheck(next) && !PastCheck(h.phase) ==>
                  && h.phase.HasEvent? && next.event == h.phase.event
                  && next.event.status == ACTIVE && InWindow(next.event, now) && !next.Inserting?)
            && (PastCheck(next) && PastCheck(h.phase) ==> next.event == h.phase.event)
            && (next.Inserting? ==> next.met == ValidateCondition(v, p.userId, next.event.kind, next.event.condition))
  {}

  predicate Enabled(cfg: Config, s: State, step: Step) {
    match step
    case Publish(id, _, fields) => id !in s.published && (fields.exchange == "" ==> fields.routingKey == cfg.queue)
    case Deliver(i) => i < |s.queue|
    case Proceed(i, _) => i < |s.running| && !Finished(s.running[i].phase)
    case Fault(i, _) => i < |s.running| && !Finished(s.running[i].phase)
    case Settle(i) => i < |s.running| && Finished(s.running[i].phase)
    case Republish(i) => i < |s.delayed| && s.delayed[i].due <= s.now
    case Tick(_) => true
    case EditEvent(e) => EventRuns.Enabled(s.events, e)
  }

  /** `s` has let go of `h`, which has finished. */
  function Settled(cfg: Config, s: State, h: Handler): State {
    var id := h.msg.id;
    if h.phase.Succeeded? then s.(acked := s.acked + [id])
    else
      match OnFailure(cfg.policy, h.msg, s.now)
      case RetryLater(copy) => s.(delayed := s.delayed + [copy], failed := s.failed + multiset{id})
      case Acknowledge => s.(acked := s.acked + [id], failed := s.failed + multiset{id})
  }

  function Apply(cfg: Config, s: State, step: Step): State
    requires Enabled(cfg, s, step)
  {
    match step
    case Publish(id, payload, fields) =>
      s.(queue := s.queue + [Message(id, payload, 0, fields, None)], published := s.published + {id})
    case Deliver(i) =>
      var m := s.queue[i];
      s.(queue := RemoveAt(s.queue, i), running := s.running + [Handler(m, Started)], started := s.started + multiset{m.id})
    case Proceed(i, cached) =>
      var h := s.running[i];
      var next := Advance(cfg.validators, s.now, s.events.docs, s.requests, h, cached);
      s.(running := s.running[i := h.(phase := next.0)], requests := next.1)
    case Fault(i, applied) =>
      var h := s.running[i];
      var rs := if applied && h.phase.Inserting?
                then Advance(cfg.validators, s.now, s.events.docs, s.requests, h, false).1
                else s.requests;
      s.(running := s.running[i := h.(phase := Failed)], requests := rs)
    case Settle(i) =>
      Settled(cfg, s.(running := RemoveAt(s.running, i)), s.running[i])
    case Republish(i) =>
      var m := s.delayed[i].msg;
      if m.fields.routingKey == cfg.queue
      then s.(delayed := RemoveAt(s.delayed, i), queue := s.queue + [m])
      else s.(delayed := RemoveAt(s.delayed, i), lost := s.lost + [m.id])
    case Tick(ms) => s.(now := s.now + ms)
    case EditEvent(e) => s.(events := EventRuns.Apply(cfg.refuses, s.events, e))
  }

  /** Nothing has been sent yet; requests may already be stored, one per pair. */
  ghost predicate Init(s: State) {
    && s.queue == [] && s.running == [] && s.delayed == [] && s.acked == [] && s.lost == []
    && s.published == {} && s.started == multiset{} && s.failed == multiset{}
    && EventRuns.Init(s.events)
    && UniquePairs(s.requests)
  }

  ghost predicate Trace(cfg: Config, tr: seq<State>, steps: seq<Step>) {
    && |tr| == |steps| + 1
    && forall k | 0 <= k < |steps| :: Enabled(cfg, tr[k], steps[k]) && tr[k + 1] == Apply(cfg, tr[k], steps[k])
  }

  /** `tr[k]` is the state after `k` of the steps. */
  ghost predicate Run(cfg: Config, tr: seq<State>, steps: seq<Step>) {
    Trace(cfg, tr, steps) && Init(tr[0])
  }

  predicate Drained(s: State) {
    s.queue == [] && s.running == [] && s.delayed == []
  }

  // ---------------------------------------------------------------- a handler on its own

  function Rank(p: Phase): nat {
    match p
    case Started => 8
    case HasEvent(_) => 7
    case Admitted(_, _) => 6
    case CachedLookup(_, _) => 5
    case Looking(_, _) => 4
    case Validating(_, _) => 3
    case Inserting(_, _, _) => 2
    case Succeeded => 1
    case Failed => 1
  }

  /** The handler run to its end with nothing in between. */
  function Finish(v: Validators, docs: Docs, requests: seq<Request>, h: Handler, checkedAt: int, savedAt: int, cached: bool): (Phase, seq<Request>)
    decreases Rank(h.phase)
  {
    if Finished(h.phase) then (h.phase, requests)
    else
      var next := Advance(v, if h.phase.HasEvent? then checkedAt else savedAt, docs, requests, h, cached);
      Finish(v, docs, next.1, h.(phase := next.0), checkedAt, savedAt, cached)
  }

  lemma FinishAdmitted(v: Validators, docs: Docs, requests: seq<Request>, m: Message, e: Event, checkedAt: int, savedAt: int, cached: bool)
    ensures Finish(v, docs, requests, Handler(m, Admitted(e, checkedAt)), checkedAt, savedAt, cached)
         == if Stored(requests, m.payload.userId, m.payload.eventId) then (if cached then Succeeded else Failed, requests)
            else (Succeeded, requests + [NewRequest(m.payload, ValidateCondition(v, m.payload.userId, e.kind, e.condition), savedAt)])
  {
    var p := m.payload;
    var met := ValidateCondition(v, p.userId, e.kind, e.condition);
    var created := NewRequest(p, met, savedAt);
    var stored := Stored(requests, p.userId, p.eventId);
    assert Finish(v, docs, requests, Handler(m, Inserting(e, checkedAt, met)), checkedAt, savedAt, cached)
        == if stored then (Failed, requests) else (Succeeded, requests + [created]);
    assert Finish(v, docs, requests, Handler(m, Looking(e, checkedAt)), checkedAt, savedAt, cached)
        == if stored then (Failed, requests) else (Succeeded, requests + [created]);
    assert Finish(v, docs, requests, Handler(m, CachedLookup(e, checkedAt)), checkedAt, savedAt, cached)
        == if stored then (Succeeded, requests) else (Succeeded, requests + [created]);
  }

  /** Undisturbed, the stepwise handler does what the service's method does. */
  lemma UndisturbedHandlerIsCreateOutcome(v: Validators, docs: Docs, requests: seq<Request>, m: Message, checkedAt: int, savedAt: int, cached: bool)
    ensures Finish(v, docs, requests, Handler(m, Started), checkedAt, savedAt, cached)
         == match CreateOutcome(v, docs, requests, m.payload, checkedAt, savedAt, cached)
            case Created(r) => (Succeeded, requests + [r])
            case Existing(_) => (Succeeded, requests)
            case _ => (Failed, requests)
  {
    var found := FindOne(docs, m.payload.eventId, false);
    if found.Some? {
      var e := found.value;
      FinishAdmitted(v, docs, requests, m, e, checkedAt, savedAt, cached);
      assert Finish(v, docs, requests, Handler(m, HasEvent(e)), checkedAt, savedAt, cached)
          == if e.status == ACTIVE && InWindow(e, checkedAt)
             then Finish(v, docs, requests, Handler(m, Admitted(e, checkedAt)), checkedAt, savedAt, cached)
             else (Failed, requests);
    }
  }
}
