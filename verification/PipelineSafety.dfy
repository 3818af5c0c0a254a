/**
 What gets stored, over whole runs: one request per user and event, never changed, each
 justified by the event as it stood when it was read, and none missing once the queue is dry.
 */
module PipelineSafety {
  import opened Prelude
  import opened Events
  import opened Requests
  import opened Pipeline

  // ---------------------------------------------------------------- one per pair, for good

  lemma {:induction false} UniqueInEveryState(cfg: Config, tr: seq<State>, steps: seq<Step>, k: nat)
    requires Run(cfg, tr, steps) && k < |tr|
    ensures UniquePairs(tr[k].requests)
  {
    if k > 0 {
      UniqueInEveryState(cfg, tr, steps, k - 1);
      StepExtends(cfg, tr[k - 1], steps[k - 1]);
    }
  }

  /**
   Whatever the interleaving, the faults and Redis, at most one request is stored for a user
   and an event, and everything stored stays as it is: later collections extend earlier ones.
   */
  lemma {:induction false} StoredOnceAndForever(cfg: Config, tr: seq<State>, steps: seq<Step>, i: nat, k: nat)
    requires Run(cfg, tr, steps) && i <= k < |tr|
    ensures UniquePairs(tr[k].requests)
    ensures tr[i].requests <= tr[k].requests
    decreases k
  {
    UniqueInEveryState(cfg, tr, steps, k);
    if i < k {
      StoredOnceAndForever(cfg, tr, steps, i, k - 1);
      StepExtends(cfg, tr[k - 1], steps[k - 1]);
    }
  }

  /** A step appends at most one request, for a pair that had none. */
  lemma StepExtends(cfg: Config, s: State, step: Step)
    requires Enabled(cfg, s, step)
    ensures var s' := Apply(cfg, s, step);
            || s'.requests == s.requests
            || (exists r :: s'.requests == s.requests + [r] && !Stored(s.requests, r.userId, r.eventId))
    ensures UniquePairs(s.requests) ==> UniquePairs(Apply(cfg, s, step).requests)
  {
    if step.Proceed? || step.Fault? {
      var h := s.running[step.i];
      if h.phase.Inserting? {
        var r := NewRequest(h.msg.payload, h.phase.met, s.now);
        if !Stored(s.requests, r.userId, r.eventId) {
          assert UniquePairs(s.requests) ==> UniquePairs(s.requests + [r]);
        }
      }
    }
  }

  lemma {:induction false} FoundStaysFound(a: seq<Request>, b: seq<Request>, userId: string, eventId: string)
    requires a <= b && Stored(a, userId, eventId)
    ensures FindExisting(b, userId, eventId) == FindExisting(a, userId, eventId)
  {
    if !(a[0].userId == userId && a[0].eventId == eventId) {
      FoundStaysFound(a[1..], b[1..], userId, eventId);
    }
  }

  /** Once anything is stored for a pair, the eligibility check refuses it at every later moment. */
  lemma StoredMeansIneligible(cfg: Config, tr: seq<State>, steps: seq<Step>, i: nat, k: nat, userId: string, eventId: string, event: Event)
    requires Run(cfg, tr, steps) && i <= k < |tr|
    requires Stored(tr[i].requests, userId, eventId)
    ensures CheckEligibility(cfg.validators, tr[k].requests, userId, eventId, event, tr[k].now).Ineligible?
    ensures FindExisting(tr[k].requests, userId, eventId) == FindExisting(tr[i].requests, userId, eventId)
  {
    StoredOnceAndForever(cfg, tr, steps, i, k);
    FoundStaysFound(tr[i].requests, tr[k].requests, userId, eventId);
  }

  // ---------------------------------------------------------------- justified by history

  /** In state `i` the event's document was `e`, not deleted. */
  ghost predicate StoodAt(tr: seq<State>, i: nat, eventId: string, e: Event) {
    && i < |tr| && eventId in tr[i].events.docs && tr[i].events.docs[eventId] == e && e.deletedAt.None?
  }

  /** Step `j` lets a delivery for the pair pass the existence, status and window checks. */
  ghost predicate AdmitsAt(tr: seq<State>, steps: seq<Step>, j: nat, userId: string, eventId: string, e: Event) {
    && j < |steps| && j < |tr| && steps[j].Proceed? && steps[j].i < |tr[j].running|
    && var h := tr[j].running[steps[j].i];
    && h.msg.payload.userId == userId && h.msg.payload.eventId == eventId
    && h.phase == HasEvent(e)
    && e.status == ACTIVE && InWindow(e, tr[j].now)
  }

  /** Before state `k`: the event stood as `e` in some state, and a later check of `e` passed. */
  ghost predicate Admission(tr: seq<State>, steps: seq<Step>, k: nat, userId: string, eventId: string, e: Event) {
    exists i, j :: 0 <= i <= j < k && StoodAt(tr, i, eventId, e) && AdmitsAt(tr, steps, j, userId, eventId, e)
  }

  predicate StatusFrom(v: Validators, r: Request, e: Event) {
    var met := ConditionMet(v, r.userId, e);
    r.status == (if met then APPROVED else FAILED) && r.reason == (if met then None else Some(ConditionNotMet))
  }

  ghost predicate Justified(cfg: Config, tr: seq<State>, steps: seq<Step>, k: nat, r: Request) {
    exists e :: Admission(tr, steps, k, r.userId, r.eventId, e) && StatusFrom(cfg.validators, r, e)
  }

  ghost predicate HandlerOk(cfg: Config, tr: seq<State>, steps: seq<Step>, k: nat, h: Handler) {
    var p := h.msg.payload;
    && (h.phase.HasEvent? ==> exists i :: 0 <= i < k && StoodAt(tr, i, p.eventId, h.phase.event))
    && (PastCheck(h.phase) ==> Admission(tr, steps, k, p.userId, p.eventId, h.phase.event))
    && (h.phase.Inserting? ==>
          h.phase.met == ValidateCondition(cfg.validators, p.userId, h.phase.event.kind, h.phase.event.condition))
  }

  ghost predicate HistoryInv(cfg: Config, tr: seq<State>, steps: seq<Step>, k: nat)
    requires k < |tr|
  {
    && (forall n | 0 <= n < |tr[k].running| :: HandlerOk(cfg, tr, steps, k, tr[k].running[n]))
    && |tr[0].requests| <= |tr[k].requests|
    && (forall n | |tr[0].requests| <= n < |tr[k].requests| :: Justified(cfg, tr, steps, k, tr[k].requests[n]))
  }

  lemma AdmissionLater(tr: seq<State>, steps: seq<Step>, k: nat, userId: string, eventId: string, e: Event)
    requires Admission(tr, steps, k, userId, eventId, e)
    ensures Admission(tr, steps, k + 1, userId, eventId, e)
  {
    var i, j :| 0 <= i <= j < k && StoodAt(tr, i, eventId, e) && AdmitsAt(tr, steps, j, userId, eventId, e);
    assert i <= j < k + 1;
  }

  lemma HandlerOkLater(cfg: Config, tr: seq<State>, steps: seq<Step>, k: nat, h: Handler)
    requires HandlerOk(cfg, tr, steps, k, h)
    ensures HandlerOk(cfg, tr, steps, k + 1, h)
  {
    if h.phase.HasEvent? {
      var i :| 0 <= i < k && StoodAt(tr, i, h.msg.payload.eventId, h.phase.event);
      assert i < k + 1;
    }
    if PastCheck(h.phase) {
      AdmissionLater(tr, steps, k, h.msg.payload.userId, h.msg.payload.eventId, h.phase.event);
    }
  }

  /** The handler that step `k` moves on is justified in the next state too. */
  lemma MovedHandlerOk(cfg: Config, tr: seq<State>, steps: seq<Step>, k: nat)
    requires Trace(cfg, tr, steps) && k < |steps| && steps[k].Proceed?
    requires HandlerOk(cfg, tr, steps, k, tr[k].running[steps[k].i])
    ensures HandlerOk(cfg, tr, steps, k + 1, tr[k + 1].running[steps[k].i])
  {
    var s, h, h' := tr[k], tr[k].running[steps[k].i], tr[k + 1].running[steps[k].i];
    var p := h.msg.payload;
    assert h'.phase == Advance(cfg.validators, s.now, s.events.docs, s.requests, h, steps[k].cached).0 && h'.msg == h.msg;
    AdvanceCases(cfg.validators, s.now, s.events.docs, s.requests, h, steps[k].cached);
    HandlerOkLater(cfg, tr, steps, k, h);
    if h'.phase.HasEvent? {
      assert StoodAt(tr, k, p.eventId, h'.phase.event);
    } else if PastCheck(h'.phase) && !PastCheck(h.phase) {
      var i :| 0 <= i < k && StoodAt(tr, i, p.eventId, h.phase.event);
      assert AdmitsAt(tr, steps, k, p.userId, p.eventId, h.phase.event);
      assert i <= k < k + 1;
    }
  }

  lemma RequestsJustified(cfg: Config, tr: seq<State>, steps: seq<Step>, k: nat, n: nat)
    requires Trace(cfg, tr, steps) && k < |steps| && HistoryInv(cfg, tr, steps, k)
    requires |tr[0].requests| <= n < |tr[k + 1].requests|
    ensures Justified(cfg, tr, steps, k + 1, tr[k + 1].requests[n])
  {
    StepExtends(cfg, tr[k], steps[k]);
    var r := tr[k + 1].requests[n];
    if n < |tr[k].requests| {
      assert r == tr[k].requests[n];
      JustifiedLater(cfg, tr, steps, k, r);
    } else {
      InsertedBy(cfg, tr[k], steps[k]);
      var h := tr[k].running[steps[k].i];
      assert HandlerOk(cfg, tr, steps, k, h);
      NewIsJustified(cfg, tr, steps, k, h, tr[k].now);
    }
  }

  lemma JustifiedLater(cfg: Config, tr: seq<State>, steps: seq<Step>, k: nat, r: Request)
    requires Justified(cfg, tr, steps, k, r)
    ensures Justified(cfg, tr, steps, k + 1, r)
  {
    var e :| Admission(tr, steps, k, r.userId, r.eventId, e) && StatusFrom(cfg.validators, r, e);
    AdmissionLater(tr, steps, k, r.userId, r.eventId, e);
  }

  /** A step that adds a request is a handler's insert. */
  lemma InsertedBy(cfg: Config, s: State, step: Step)
    requires Enabled(cfg, s, step) && |Apply(cfg, s, step).requests| > |s.requests|
    ensures (step.Proceed? || step.Fault?) && s.running[step.i].phase.Inserting?
    ensures var h := s.running[step.i]; Apply(cfg, s, step).requests == s.requests + [NewRequest(h.msg.payload, h.phase.met, s.now)]
  {}

  lemma NewIsJustified(cfg: Config, tr: seq<State>, steps: seq<Step>, k: nat, h: Handler, now: int)
    requires HandlerOk(cfg, tr, steps, k, h) && h.phase.Inserting?
    ensures Justified(cfg, tr, steps, k + 1, NewRequest(h.msg.payload, h.phase.met, now))
  {
    var r, e := NewRequest(h.msg.payload, h.phase.met, now), h.phase.event;
    AdmissionLater(tr, steps, k, r.userId, r.eventId, e);
    ConditionMeaning(cfg.validators, r.userId, e);
    assert StatusFrom(cfg.validators, r, e);
  }

  /** A handler was there before, has just been started or failed, or is the one moved on. */
  lemma RunningBefore(cfg: Config, s: State, step: Step, n: nat)
    requires Enabled(cfg, s, step) && n < |Apply(cfg, s, step).running|
    ensures var h := Apply(cfg, s, step).running[n];
            h in s.running || h.phase.Started? || h.phase.Failed? || (step.Proceed? && n == step.i)
  {
    var s' := Apply(cfg, s, step);
    if step.Settle? {
      assert s'.running[n] == s.running[if n < step.i then n else n + 1];
    } else if n < |s.running| && !(step.Proceed? && n == step.i) && !(step.Fault? && n == step.i) {
      assert s'.running[n] == s.running[n];
    }
  }

  lemma HandlersOk(cfg: Config, tr: seq<State>, steps: seq<Step>, k: nat, n: nat)
    requires Trace(cfg, tr, steps) && k < |steps| && HistoryInv(cfg, tr, steps, k)
    requires n < |tr[k + 1].running|
    ensures HandlerOk(cfg, tr, steps, k + 1, tr[k + 1].running[n])
  {
    RunningBefore(cfg, tr[k], steps[k], n);
    var h := tr[k + 1].running[n];
    if h in tr[k].running {
      var m :| 0 <= m < |tr[k].running| && tr[k].running[m] == h;
      HandlerOkLater(cfg, tr, steps, k, h);
    } else if steps[k].Proceed? && n == steps[k].i {
      MovedHandlerOk(cfg, tr, steps, k);
    }
  }

  lemma {:induction false} HistoryHolds(cfg: Config, tr: seq<State>, steps: seq<Step>, k: nat)
    requires Trace(cfg, tr, steps) && tr[0].running == [] && k < |tr|
    ensures HistoryInv(cfg, tr, steps, k)
  {
    if k > 0 {
      HistoryHolds(cfg, tr, steps, k - 1);
      StepExtends(cfg, tr[k - 1], steps[k - 1]);
      forall n | |tr[0].requests| <= n < |tr[k].requests| ensures Justified(cfg, tr, steps, k, tr[k].requests[n]) {
        RequestsJustified(cfg, tr, steps, k - 1, n);
      }
      forall n | 0 <= n < |tr[k].running| ensures HandlerOk(cfg, tr, steps, k, tr[k].running[n]) {
        HandlersOk(cfg, tr, steps, k - 1, n);
      }
    }
  }

  /**
   Every request stored during a run is justified by history: in some earlier state its event
   stood undeleted as `e`; a later check found `e` active and in its window at that check's
   time; and the status is APPROVED exactly when the validator for `e`'s type said yes. However
   the event was edited, deleted or restored in between or since does not matter.
   */
  lemma EveryRequestJustified(cfg: Config, tr: seq<State>, steps: seq<Step>, k: nat, n: nat)
    requires Run(cfg, tr, steps) && k < |tr|
    requires |tr[0].requests| <= n < |tr[k].requests|
    ensures var r := tr[k].requests[n];
            exists e ::
              && Admission(tr, steps, k, r.userId, r.eventId, e)
              && (r.status == APPROVED <==>
                    || (e.kind == LOGIN && cfg.validators.login(r.userId, e.condition))
                    || (e.kind == FRIEND_INVITATION && cfg.validators.friendInvitation(r.userId, e.condition)))
              && (r.status == APPROVED || r.status == FAILED)
              && (r.reason == if r.status == APPROVED then None else Some(ConditionNotMet))
  {
    HistoryHolds(cfg, tr, steps, k);
    assert Justified(cfg, tr, steps, k, tr[k].requests[n]);
  }

  // ---------------------------------------------------------------- drained runs

  /** A handler for the pair has passed the checks and not finished. */
  ghost predicate InFlight(s: State, userId: string, eventId: string) {
    exists n :: 0 <= n < |s.running| && PastCheck(s.running[n].phase)
                && s.running[n].msg.payload.userId == userId && s.running[n].msg.payload.eventId == eventId
  }

  /** Moving a handler past the checks on leaves it on its way, or its pair stored. */
  lemma ProceedKeepsPair(cfg: Config, s: State, n: nat, cached: bool)
    requires n < |s.running| && PastCheck(s.running[n].phase)
    ensures var s', p := Apply(cfg, s, Proceed(n, cached)), s.running[n].msg.payload;
            Stored(s'.requests, p.userId, p.eventId) || (PastCheck(s'.running[n].phase) && s'.running[n].msg == s.running[n].msg)
  {
    var h := s.running[n];
    if h.phase.Inserting? {
      var p := h.msg.payload;
      FindExistingAppend(s.requests, NewRequest(p, h.phase.met, s.now), p.userId, p.eventId);
    }
  }

  /** Other steps do not touch it. */
  lemma OtherStepsKeepHandler(cfg: Config, s: State, step: Step, n: nat) returns (m: nat)
    requires Enabled(cfg, s, step) && n < |s.running| && !Finished(s.running[n].phase)
    requires !(step.Proceed? && step.i == n) && !step.Fault?
    ensures m < |Apply(cfg, s, step).running| && Apply(cfg, s, step).running[m] == s.running[n]
  {
    m := if step.Settle? && step.i < n then n - 1 else n;
  }

  /** Without faults, a pair that is stored or on its way stays so: even the loser of a race leaves a stored request behind. */
  lemma StepKeepsPair(cfg: Config, s: State, step: Step, userId: string, eventId: string)
    requires Enabled(cfg, s, step) && !step.Fault?
    requires Stored(s.requests, userId, eventId) || InFlight(s, userId, eventId)
    ensures var s' := Apply(cfg, s, step); Stored(s'.requests, userId, eventId) || InFlight(s', userId, eventId)
  {
    if Stored(s.requests, userId, eventId) {
      StepExtends(cfg, s, step);
      FoundStaysFound(s.requests, Apply(cfg, s, step).requests, userId, eventId);
    } else {
      var n: nat :| n < |s.running| && PastCheck(s.running[n].phase)
               && s.running[n].msg.payload.userId == userId && s.running[n].msg.payload.eventId == eventId;
      if step.Proceed? && step.i == n {
        ProceedKeepsPair(cfg, s, n, step.cached);
      } else {
        var m := OtherStepsKeepHandler(cfg, s, step, n);
      }
    }
  }

  lemma {:induction false} AdmittedIsKept(cfg: Config, tr: seq<State>, steps: seq<Step>, j: nat, k: nat, userId: string, eventId: string, e: Event)
    requires Trace(cfg, tr, steps) && k < |tr| && forall m | 0 <= m < k :: !steps[m].Fault?
    requires j < k && AdmitsAt(tr, steps, j, userId, eventId, e)
    ensures Stored(tr[k].requests, userId, eventId) || InFlight(tr[k], userId, eventId)
    decreases k
  {
    if j == k - 1 {
      assert tr[k].running[steps[j].i].phase == Admitted(e, tr[j].now);
    } else {
      AdmittedIsKept(cfg, tr, steps, j, k - 1, userId, eventId, e);
      StepKeepsPair(cfg, tr[k - 1], steps[k - 1], userId, eventId);
    }
  }

  /**
   A fault-free run that has drained: a pair that started without a request ends with one if
   and only if some delivery for it passed the existence, status and window checks.
   */
  lemma DrainedStoresExactlyTheAdmitted(cfg: Config, tr: seq<State>, steps: seq<Step>, k: nat, userId: string, eventId: string)
    requires Run(cfg, tr, steps) && k < |tr| && Drained(tr[k])
    requires forall m | 0 <= m < k :: !steps[m].Fault?
    requires !Stored(tr[0].requests, userId, eventId)
    ensures Stored(tr[k].requests, userId, eventId)
            <==> exists j, e :: 0 <= j < k && AdmitsAt(tr, steps, j, userId, eventId, e)
  {
    if exists j, e :: 0 <= j < k && AdmitsAt(tr, steps, j, userId, eventId, e) {
      var j, e :| 0 <= j < k && AdmitsAt(tr, steps, j, userId, eventId, e);
      AdmittedIsKept(cfg, tr, steps, j, k, userId, eventId, e);
    }
    if Stored(tr[k].requests, userId, eventId) {
      var r := FindExisting(tr[k].requests, userId, eventId).value;
      var n :| 0 <= n < |tr[k].requests| && tr[k].requests[n] == r;
      StoredOnceAndForever(cfg, tr, steps, 0, k);
      assert forall m | 0 <= m < |tr[0].requests| ::
          tr[0].requests[m] in tr[0].requests && tr[0].requests[m] == tr[k].requests[m];
      assert n >= |tr[0].requests|;
      EveryRequestJustified(cfg, tr, steps, k, n);
      var e :| Admission(tr, steps, k, userId, eventId, e);
      var i, j :| 0 <= i <= j < k && StoodAt(tr, i, eventId, e) && AdmitsAt(tr, steps, j, userId, eventId, e);
    }
  }
}
