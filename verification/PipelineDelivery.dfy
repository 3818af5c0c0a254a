/**
 What becomes of one message over whole runs, faults included: every live copy is the n-th copy
 of what was published, a message acknowledged after a success has left a stored request, and in
 a drained run the only other ends are that every run allowed has failed, or that the first has
 and the copy was addressed to no queue.
 */
module PipelineDelivery {
  import opened Prelude
  import opened Requests
  import opened Interceptor
  import opened Pipeline
  import opened PipelineRetry
  import opened PipelineSafety

  // ---------------------------------------------------------------- copies of a message

  /** What the interceptor makes of `o` in `n` retries. */
  function NthCopy(o: Message, n: nat): Message {
    if n == 0 then o
    else
      var key := o.fields.routingKey;
      o.(retries := n, fields := Fields("", key), origin := Some(Fields(if n == 1 then o.fields.exchange else "", key)))
  }

  ghost predicate IsCopy(m: Message, o: Message) {
    m.id == o.id ==> m == NthCopy(o, m.retries)
  }

  ghost predicate CopiesOf(s: State, o: Message) {
    && (forall i | 0 <= i < |s.queue| :: IsCopy(s.queue[i], o))
    && (forall i | 0 <= i < |s.running| :: IsCopy(s.running[i].msg, o))
    && (forall i | 0 <= i < |s.delayed| :: IsCopy(s.delayed[i].msg, o))
  }

  /** Step `m` publishes `o`. */
  ghost predicate PublishedAt(steps: seq<Step>, m: nat, o: Message) {
    m < |steps| && steps[m] == Publish(o.id, o.payload, o.fields) && o.retries == 0 && o.origin.None?
  }

  lemma CopyOfCopy(m: Message, o: Message)
    requires IsCopy(m, o)
    ensures IsCopy(RetryCopy(m, m.retries + 1), o)
  {}

  lemma RunningCopies(cfg: Config, s: State, step: Step, o: Message)
    requires CopiesOf(s, o) && Enabled(cfg, s, step)
    ensures var hs := Apply(cfg, s, step).running; forall i | 0 <= i < |hs| :: IsCopy(hs[i].msg, o)
  {
    var s' := Apply(cfg, s, step);
    forall i | 0 <= i < |s'.running| ensures IsCopy(s'.running[i].msg, o) {
      if step.Settle? {
        assert s'.running[i] == s.running[if i < step.i then i else i + 1];
      } else if i < |s.running| {
        assert s'.running[i].msg == s.running[i].msg;
      }
    }
  }

  lemma DelayedCopies(cfg: Config, s: State, step: Step, o: Message)
    requires CopiesOf(s, o) && Enabled(cfg, s, step)
    ensures var ds := Apply(cfg, s, step).delayed; forall i | 0 <= i < |ds| :: IsCopy(ds[i].msg, o)
  {
    var s' := Apply(cfg, s, step);
    forall i | 0 <= i < |s'.delayed| ensures IsCopy(s'.delayed[i].msg, o) {
      if step.Republish? {
        assert s'.delayed[i] == s.delayed[if i < step.i then i else i + 1];
      } else if i == |s.delayed| {
        CopyOfCopy(s.running[step.i].msg, o);
      }
    }
  }

  lemma StepCopies(cfg: Config, s: State, step: Step, o: Message)
    requires CopiesOf(s, o) && Enabled(cfg, s, step)
    requires step.Publish? ==> step.id != o.id
    ensures CopiesOf(Apply(cfg, s, step), o)
  {
    var s' := Apply(cfg, s, step);
    RunningCopies(cfg, s, step, o);
    DelayedCopies(cfg, s, step, o);
    forall i | 0 <= i < |s'.queue| ensures IsCopy(s'.queue[i], o) {
      if step.Deliver? {
        assert s'.queue[i] == s.queue[if i < step.i then i else i + 1];
      }
    }
  }

  /** Before it is published there is no copy of a message; publishing makes the first. */
  lemma PublishMakesFirst(cfg: Config, s: State, step: Step, o: Message)
    requires Conserved(s) && Enabled(cfg, s, step) && PublishedAt([step], 0, o)
    ensures CopiesOf(Apply(cfg, s, step), o)
  {
    AllPublished(s);
  }

  lemma {:induction false} CopiesHold(cfg: Config, tr: seq<State>, steps: seq<Step>, m: nat, k: nat, o: Message)
    requires Run(cfg, tr, steps) && m < k < |tr| && PublishedAt(steps, m, o)
    ensures CopiesOf(tr[k], o) && o.id in tr[k].published
    decreases k
  {
    if k == m + 1 {
      ConservedHolds(cfg, tr, steps, m);
      PublishMakesFirst(cfg, tr[m], steps[m], o);
    } else {
      CopiesHold(cfg, tr, steps, m, k - 1, o);
      StepCopies(cfg, tr[k - 1], steps[k - 1], o);
    }
  }

  // ---------------------------------------------------------------- copies that find no queue

  /** A message whose routing key is not the queue's name is run once; its first copy is lost. */
  ghost predicate Routed(cfg: Config, s: State, o: Message) {
    && (o.id in s.lost ==> o.fields.routingKey != cfg.queue && s.failed[o.id] == 1)
    && (o.fields.routingKey != cfg.queue ==>
          && (forall i | 0 <= i < |s.queue| && s.queue[i].id == o.id :: s.queue[i].retries == 0)
          && (forall i | 0 <= i < |s.running| && s.running[i].msg.id == o.id :: s.running[i].msg.retries == 0)
          && (forall i | 0 <= i < |s.delayed| && s.delayed[i].msg.id == o.id :: s.delayed[i].msg.retries == 1)
          && (o.id in s.acked ==> s.failed[o.id] == 0 || cfg.policy.maxRetries == 0))
  }

  ghost predicate RoutingInv(cfg: Config, s: State, o: Message) {
    Conserved(s) && AttemptsInv(cfg, s) && CopiesOf(s, o) && Routed(cfg, s, o)
  }

  lemma SettleRouted(cfg: Config, s: State, i: nat, o: Message)
    requires RoutingInv(cfg, s, o) && Enabled(cfg, s, Settle(i))
    ensures Routed(cfg, Apply(cfg, s, Settle(i)), o)
  {
    var s', m := Apply(cfg, s, Settle(i)), s.running[i].msg;
    OnlyRunning(s, i);
    assert RunningOk(cfg, s, m);
    assert m.id != o.id ==> s'.failed[o.id] == s.failed[o.id];
    forall j | 0 <= j < |s'.running| ensures s'.running[j] == s.running[if j < i then j else j + 1] {}
  }

  lemma DeliverRouted(cfg: Config, s: State, i: nat, o: Message)
    requires RoutingInv(cfg, s, o) && Enabled(cfg, s, Deliver(i))
    ensures Routed(cfg, Apply(cfg, s, Deliver(i)), o)
  {
    var s' := Apply(cfg, s, Deliver(i));
    forall j | 0 <= j < |s'.queue| ensures s'.queue[j] == s.queue[if j < i then j else j + 1] {}
    forall j | 0 <= j < |s'.running| ensures s'.running[j] == if j < |s.running| then s.running[j] else Handler(s.queue[i], Started) {}
  }

  lemma RepublishRouted(cfg: Config, s: State, i: nat, o: Message)
    requires RoutingInv(cfg, s, o) && Enabled(cfg, s, Republish(i))
    ensures Routed(cfg, Apply(cfg, s, Republish(i)), o)
  {
    var s', m := Apply(cfg, s, Republish(i)), s.delayed[i].msg;
    assert QueuedOk(cfg, s, m) && m.retries > 0 && IsCopy(m, o);
    forall j | 0 <= j < |s'.delayed| ensures s'.delayed[j] == s.delayed[if j < i then j else j + 1] {}
  }

  lemma QuietRouted(cfg: Config, s: State, step: Step, o: Message)
    requires RoutingInv(cfg, s, o) && Enabled(cfg, s, step)
    requires step.Publish? || step.Proceed? || step.Fault? || step.Tick? || step.EditEvent?
    ensures Routed(cfg, Apply(cfg, s, step), o)
  {
    var s' := Apply(cfg, s, step);
    assert s'.failed == s.failed && s'.delayed == s.delayed && s'.acked == s.acked && s'.lost == s.lost;
    forall j | 0 <= j < |s'.running| ensures s'.running[j].msg == s.running[j].msg {}
    forall j | 0 <= j < |s'.queue| ensures s'.queue[j].retries == 0 || s'.queue[j] == s.queue[j] {}
  }

  lemma StepRouted(cfg: Config, s: State, step: Step, o: Message)
    requires RoutingInv(cfg, s, o) && Enabled(cfg, s, step)
    ensures Routed(cfg, Apply(cfg, s, step), o)
  {
    if step.Settle? {
      SettleRouted(cfg, s, step.i, o);
    } else if step.Deliver? {
      DeliverRouted(cfg, s, step.i, o);
    } else if step.Republish? {
      RepublishRouted(cfg, s, step.i, o);
    } else {
      QuietRouted(cfg, s, step, o);
    }
  }

  lemma PublishRouted(cfg: Config, s: State, step: Step, o: Message)
    requires Conserved(s) && Enabled(cfg, s, step) && PublishedAt([step], 0, o)
    ensures Routed(cfg, Apply(cfg, s, step), o)
  {
    AllPublished(s);
  }

  lemma WithRouted(cfg: Config, tr: seq<State>, steps: seq<Step>, m: nat, k: nat, o: Message)
    requires Run(cfg, tr, steps) && m < k < |tr| && PublishedAt(steps, m, o) && Routed(cfg, tr[k], o)
    ensures RoutingInv(cfg, tr[k], o)
  {
    ConservedHolds(cfg, tr, steps, k);
    AttemptsHold(cfg, tr, steps, k);
    CopiesHold(cfg, tr, steps, m, k, o);
  }

  lemma {:induction false} RoutedHolds(cfg: Config, tr: seq<State>, steps: seq<Step>, m: nat, k: nat, o: Message)
    requires Run(cfg, tr, steps) && m < k < |tr| && PublishedAt(steps, m, o)
    ensures Routed(cfg, tr[k], o)
    decreases k
  {
    if k == m + 1 {
      ConservedHolds(cfg, tr, steps, m);
      PublishRouted(cfg, tr[m], steps[m], o);
    } else {
      RoutedHolds(cfg, tr, steps, m, k - 1, o);
      WithRouted(cfg, tr, steps, m, k - 1, o);
      StepRouted(cfg, tr[k - 1], steps[k - 1], o);
    }
  }

  /** `m` is queued or being handled in `s`. */
  ghost predicate Arrived(s: State, m: Message) {
    m in s.queue || exists i :: 0 <= i < |s.running| && s.running[i].msg == m
  }

  ghost predicate Waiting(s: State, m: Message) {
    exists i :: 0 <= i < |s.delayed| && s.delayed[i].msg == m
  }

  /**
   The live copy of a message is determined by how often it has failed: payload and routing key
   never change, and the header `x-original-exchange` names the exchange it was published to if
   and only if it has failed once or that was the default exchange (a second retry writes the
   exchange of the first retry over it). A copy arrives only under the queue's own name.
   */
  lemma LiveCopyIsDetermined(cfg: Config, tr: seq<State>, steps: seq<Step>, m: nat, k: nat, o: Message, copy: Message)
    requires Run(cfg, tr, steps) && m < k < |tr| && PublishedAt(steps, m, o)
    requires (Arrived(tr[k], copy) || Waiting(tr[k], copy)) && copy.id == o.id
    ensures copy == NthCopy(o, tr[k].failed[o.id])
    ensures copy.payload == o.payload && copy.fields.routingKey == o.fields.routingKey
    ensures tr[k].failed[o.id] > 0 ==>
              (copy.origin == Some(o.fields) <==> tr[k].failed[o.id] == 1 || o.fields.exchange == "")
    ensures tr[k].failed[o.id] > 0 && Arrived(tr[k], copy) ==> o.fields.routingKey == cfg.queue
  {
    RoutedHolds(cfg, tr, steps, m, k, o);
    WithRouted(cfg, tr, steps, m, k, o);
    RetriesCountFailures(cfg, tr, steps, k);
    assert IsCopy(copy, o);
  }

  // ---------------------------------------------------------------- success leaves a request

  ghost predicate SuccessesStored(s: State) {
    forall i | 0 <= i < |s.running| && s.running[i].phase.Succeeded? ::
      Stored(s.requests, s.running[i].msg.payload.userId, s.running[i].msg.payload.eventId)
  }

  lemma StoredGrows(cfg: Config, s: State, step: Step, userId: string, eventId: string)
    requires Enabled(cfg, s, step) && Stored(s.requests, userId, eventId)
    ensures Stored(Apply(cfg, s, step).requests, userId, eventId)
  {
    StepExtends(cfg, s, step);
    FoundStaysFound(s.requests, Apply(cfg, s, step).requests, userId, eventId);
  }

  /** A handler that a step brings to success leaves its pair stored. */
  lemma SuccessStores(cfg: Config, s: State, i: nat, cached: bool)
    requires Enabled(cfg, s, Proceed(i, cached))
    ensures var s', p := Apply(cfg, s, Proceed(i, cached)), s.running[i].msg.payload;
            s'.running[i].phase.Succeeded? ==> Stored(s'.requests, p.userId, p.eventId)
  {
    var h := s.running[i];
    if h.phase.Inserting? {
      var p := h.msg.payload;
      FindExistingAppend(s.requests, NewRequest(p, h.phase.met, s.now), p.userId, p.eventId);
    }
  }

  lemma StepSuccesses(cfg: Config, s: State, step: Step)
    requires SuccessesStored(s) && Enabled(cfg, s, step)
    ensures SuccessesStored(Apply(cfg, s, step))
  {
    var s' := Apply(cfg, s, step);
    forall i | 0 <= i < |s'.running| && s'.running[i].phase.Succeeded?
      ensures Stored(s'.requests, s'.running[i].msg.payload.userId, s'.running[i].msg.payload.eventId)
    {
      RunningBefore(cfg, s, step, i);
      var h := s'.running[i];
      if h in s.running {
        StoredGrows(cfg, s, step, h.msg.payload.userId, h.msg.payload.eventId);
      } else {
        SuccessStores(cfg, s, i, step.cached);
      }
    }
  }

  lemma {:induction false} SuccessesHold(cfg: Config, tr: seq<State>, steps: seq<Step>, k: nat)
    requires Run(cfg, tr, steps) && k < |tr|
    ensures SuccessesStored(tr[k])
  {
    if k > 0 {
      SuccessesHold(cfg, tr, steps, k - 1);
      StepSuccesses(cfg, tr[k - 1], steps[k - 1]);
    }
  }

  /** What the step lemma needs of the state before. */
  ghost predicate DeliveryInv(cfg: Config, s: State, o: Message) {
    Conserved(s) && AttemptsInv(cfg, s) && SuccessesStored(s) && CopiesOf(s, o)
  }

  ghost predicate AckedStored(s: State, o: Message) {
    o.id in s.acked && s.failed[o.id] < s.started[o.id] ==> Stored(s.requests, o.payload.userId, o.payload.eventId)
  }

  lemma SettleAcked(cfg: Config, s: State, i: nat, o: Message)
    requires DeliveryInv(cfg, s, o) && AckedStored(s, o)
    requires Enabled(cfg, s, Settle(i))
    ensures AckedStored(Apply(cfg, s, Settle(i)), o)
  {
    var h := s.running[i];
    assert RunningOk(cfg, s, h.msg) && IsCopy(h.msg, o);
    OnlyRunning(s, i);
  }

  lemma StepAcked(cfg: Config, s: State, step: Step, o: Message)
    requires DeliveryInv(cfg, s, o) && AckedStored(s, o)
    requires Enabled(cfg, s, step)
    ensures AckedStored(Apply(cfg, s, step), o)
  {
    if step.Settle? {
      SettleAcked(cfg, s, step.i, o);
    } else {
      if step.Deliver? {
        OnlyQueued(s, step.i);
      }
      if Stored(s.requests, o.payload.userId, o.payload.eventId) {
        StoredGrows(cfg, s, step, o.payload.userId, o.payload.eventId);
      }
    }
  }

  lemma PublishedIsNotAcked(cfg: Config, s: State, step: Step, o: Message)
    requires Conserved(s) && Enabled(cfg, s, step) && PublishedAt([step], 0, o)
    ensures o.id !in Apply(cfg, s, step).acked
  {
    AllPublished(s);
  }

  lemma DeliveryHolds(cfg: Config, tr: seq<State>, steps: seq<Step>, m: nat, k: nat, o: Message)
    requires Run(cfg, tr, steps) && m < k < |tr| && PublishedAt(steps, m, o)
    ensures DeliveryInv(cfg, tr[k], o)
  {
    ConservedHolds(cfg, tr, steps, k);
    AttemptsHold(cfg, tr, steps, k);
    SuccessesHold(cfg, tr, steps, k);
    CopiesHold(cfg, tr, steps, m, k, o);
  }

  lemma {:induction false} AckedHolds(cfg: Config, tr: seq<State>, steps: seq<Step>, m: nat, k: nat, o: Message)
    requires Run(cfg, tr, steps) && m < k < |tr| && PublishedAt(steps, m, o)
    ensures AckedStored(tr[k], o)
    decreases k
  {
    if k == m + 1 {
      ConservedHolds(cfg, tr, steps, m);
      PublishedIsNotAcked(cfg, tr[m], steps[m], o);
    } else {
      AckedHolds(cfg, tr, steps, m, k - 1, o);
      DeliveryHolds(cfg, tr, steps, m, k - 1, o);
      StepAcked(cfg, tr[k - 1], steps[k - 1], o);
    }
  }

  /**
   Acknowledging a success means something: whatever fails, a message acknowledged with fewer
   failed runs than runs has left a request stored for its user and event.
   */
  lemma AckedSuccessIsStored(cfg: Config, tr: seq<State>, steps: seq<Step>, m: nat, k: nat, o: Message)
    requires Run(cfg, tr, steps) && m < k < |tr| && PublishedAt(steps, m, o)
    requires o.id in tr[k].acked && tr[k].failed[o.id] < tr[k].started[o.id]
    ensures Stored(tr[k].requests, o.payload.userId, o.payload.eventId)
  {
    AckedHolds(cfg, tr, steps, m, k, o);
  }

  lemma NothingLive(s: State)
    requires Drained(s)
    ensures Live(s) == multiset{}
  {
    assert IdSeq(s.queue, QUEUED_ID) == [] && IdSeq(s.running, RUNNING_ID) == [] && IdSeq(s.delayed, DELAYED_ID) == [];
  }

  /**
   In a drained run, faults or not, every message published is acknowledged or lost, not both. It
   is lost exactly if its routing key is not the queue's name, retries are allowed and its first
   run has failed. Otherwise a request is stored for its user and event, or all `maxRetries + 1`
   of its runs have failed.
   */
  lemma DrainedStoresOrExhausts(cfg: Config, tr: seq<State>, steps: seq<Step>, m: nat, k: nat, o: Message)
    requires Run(cfg, tr, steps) && m < k < |tr| && PublishedAt(steps, m, o)
    requires Drained(tr[k])
    ensures o.id in tr[k].acked <==> o.id !in tr[k].lost
    ensures o.id in tr[k].lost
            <==> o.fields.routingKey != cfg.queue && cfg.policy.maxRetries > 0 && tr[k].failed[o.id] > 0
    ensures || Stored(tr[k].requests, o.payload.userId, o.payload.eventId)
            || tr[k].failed[o.id] == tr[k].started[o.id] == cfg.policy.maxRetries + 1
            || (o.id in tr[k].lost && tr[k].failed[o.id] == tr[k].started[o.id] == 1)
  {
    CopiesHold(cfg, tr, steps, m, k, o);
    OneLiveCopyUntilAcked(cfg, tr, steps, k, o.id);
    NothingLive(tr[k]);
    AckedHolds(cfg, tr, steps, m, k, o);
    RoutedHolds(cfg, tr, steps, m, k, o);
    WithRouted(cfg, tr, steps, m, k, o);
    if o.id in tr[k].acked {
      assert AckedOk(cfg, tr[k], o.id);
    } else {
      assert LostOk(cfg, tr[k], o.id);
    }
  }

  /** Any run can go on with a message that fails at once for want of metadata. */
  lemma FailsAtOnce(cfg: Config, tr: seq<State>, steps: seq<Step>, o: Message)
    returns (tr2: seq<State>, steps2: seq<Step>)
    requires Run(cfg, tr, steps) && Enabled(cfg, Last(tr), Publish(o.id, o.payload, o.fields))
    requires o.payload.metadata.None? && o.retries == 0 && o.origin.None?
    ensures Run(cfg, tr2, steps2) && tr <= tr2 && steps < steps2 && PublishedAt(steps2, |steps|, o)
    ensures var s, s2 := Last(tr), Last(tr2);
            && s2.running == s.running + [Handler(o, Failed)] && s2.now == s.now
            && s2.delayed == s.delayed && s2.lost == s.lost && s2.requests == s.requests
  {
    var s := Last(tr);
    tr2, steps2 := Go(cfg, tr, steps, Publish(o.id, o.payload, o.fields));
    tr2, steps2 := Go(cfg, tr2, steps2, Deliver(|s.queue|));
    assert Last(tr2).running == s.running + [Handler(o, Started)];
    tr2, steps2 := Go(cfg, tr2, steps2, Proceed(|s.running|, false));
  }

  /**
   And it does get lost: any run can go on with a message that comes by another exchange under
   another routing key, fails at once for want of metadata, and is never seen again.
   */
  lemma MessagesGetLost(cfg: Config, tr: seq<State>, steps: seq<Step>, o: Message)
    returns (tr2: seq<State>, steps2: seq<Step>)
    requires Run(cfg, tr, steps) && cfg.policy.maxRetries > 0
    requires o.id !in Last(tr).published && o.payload.metadata.None? && o.retries == 0 && o.origin.None?
    requires o.fields.exchange != "" && o.fields.routingKey != cfg.queue
    ensures Run(cfg, tr2, steps2) && tr <= tr2 && steps < steps2 && PublishedAt(steps2, |steps|, o)
    ensures o.id in Last(tr2).lost && Last(tr2).requests == Last(tr).requests
  {
    var s := Last(tr);
    tr2, steps2 := FailsAtOnce(cfg, tr, steps, o);
    tr2, steps2 := Go(cfg, tr2, steps2, Settle(|s.running|));
    assert Last(tr2).delayed == s.delayed + [OnFailure(cfg.policy, o, s.now).copy];
    tr2, steps2 := Go(cfg, tr2, steps2, Tick(cfg.policy.retryDelay));
    tr2, steps2 := Go(cfg, tr2, steps2, Republish(|s.delayed|));
    assert Last(tr2).lost == s.lost + [o.id];
  }

  /** Stored requests outlive their events: any run can go on with an event removed for good, and nothing else changed. */
  lemma RequestsOutliveEvents(cfg: Config, tr: seq<State>, steps: seq<Step>, eventId: string)
    returns (tr2: seq<State>, steps2: seq<Step>)
    requires Run(cfg, tr, steps) && eventId in Last(tr).events.docs
    ensures GoesOn(cfg, tr, steps, tr2, steps2) && |steps2| == |steps| + 1
    ensures eventId !in Last(tr2).events.docs && Last(tr2).requests == Last(tr).requests
    ensures Last(tr2).running == Last(tr).running && Last(tr2).queue == Last(tr).queue && Last(tr2).delayed == Last(tr).delayed
  {
    tr2, steps2 := Go(cfg, tr, steps, EditEvent(EventRuns.PurgeEvent(eventId)));
  }
}
