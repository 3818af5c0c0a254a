/**
 The retry protocol over whole runs: no delivery is lost or duplicated, the retry count is the
 number of failures, handler runs are bounded, and the pipeline cannot go on for ever.
 */
module PipelineRetry {
  import opened Prelude
  import opened Interceptor
  import opened Pipeline

  // ---------------------------------------------------------------- identifiers held by a sequence

  function IdSeq<T>(s: seq<T>, id: T -> nat): seq<nat> {
    seq(|s|, i requires 0 <= i < |s| => id(s[i]))
  }

  function Ids<T>(s: seq<T>, id: T -> nat): multiset<nat> {
    multiset(IdSeq(s, id))
  }

  const QUEUED_ID := (m: Message) => m.id
  const RUNNING_ID := (h: Handler) => h.msg.id
  const DELAYED_ID := (d: Delayed) => d.msg.id

  lemma IdsSplit<T>(s: seq<T>, i: nat, id: T -> nat)
    requires i < |s|
    ensures Ids(s, id) == Ids(RemoveAt(s, i), id) + multiset{id(s[i])}
  {
    var ids := IdSeq(s, id);
    assert ids == ids[..i] + [id(s[i])] + ids[i + 1..];
    assert IdSeq(RemoveAt(s, i), id) == ids[..i] + ids[i + 1..];
  }

  lemma IdsAppend<T>(s: seq<T>, x: T, id: T -> nat)
    ensures Ids(s + [x], id) == Ids(s, id) + multiset{id(x)}
  {
    assert IdSeq(s + [x], id) == IdSeq(s, id) + [id(x)];
  }

  lemma IdsUpdate<T>(s: seq<T>, i: nat, x: T, id: T -> nat)
    requires i < |s| && id(x) == id(s[i])
    ensures Ids(s[i := x], id) == Ids(s, id)
  {
    assert IdSeq(s[i := x], id) == IdSeq(s, id);
  }

  lemma IdsMember<T>(s: seq<T>, id: T -> nat)
    ensures forall i | 0 <= i < |s| :: id(s[i]) in Ids(s, id)
  {
    assert forall i | 0 <= i < |s| :: IdSeq(s, id)[i] == id(s[i]);
  }

  // ---------------------------------------------------------------- conservation

  /** The copies of messages that still have work to do. */
  function Live(s: State): multiset<nat> {
    Ids(s.queue, QUEUED_ID) + Ids(s.running, RUNNING_ID) + Ids(s.delayed, DELAYED_ID)
  }

  ghost predicate Conserved(s: State) {
    Live(s) + multiset(s.acked) + multiset(s.lost) == multiset(s.published)
  }

  /** One copy moved from one place to another. */
  lemma Shift(q: multiset<nat>, r: multiset<nat>, d: multiset<nat>, a: multiset<nat>, l: multiset<nat>, x: nat)
    ensures q + (r + multiset{x}) + d + a + l == q + r + (d + multiset{x}) + a + l
    ensures q + (r + multiset{x}) + d + a + l == q + r + d + (a + multiset{x}) + l
    ensures q + (r + multiset{x}) + d + a + l == (q + multiset{x}) + r + d + a + l
    ensures q + r + (d + multiset{x}) + a + l == q + r + d + a + (l + multiset{x})
  {}

  lemma SettleConserves(cfg: Config, s: State, i: nat)
    requires Conserved(s) && Enabled(cfg, s, Settle(i))
    ensures Conserved(Apply(cfg, s, Settle(i)))
  {
    var m := s.running[i].msg;
    IdsSplit(s.running, i, RUNNING_ID);
    Shift(Ids(s.queue, QUEUED_ID), Ids(RemoveAt(s.running, i), RUNNING_ID), Ids(s.delayed, DELAYED_ID), multiset(s.acked), multiset(s.lost), m.id);
    if !s.running[i].phase.Succeeded? && m.retries < cfg.policy.maxRetries {
      IdsAppend(s.delayed, OnFailure(cfg.policy, m, s.now).copy, DELAYED_ID);
    } else {
      assert multiset(s.acked + [m.id]) == multiset(s.acked) + multiset{m.id};
    }
  }

  lemma DeliverConserves(cfg: Config, s: State, i: nat)
    requires Conserved(s) && Enabled(cfg, s, Deliver(i))
    ensures Conserved(Apply(cfg, s, Deliver(i)))
  {
    IdsSplit(s.queue, i, QUEUED_ID);
    IdsAppend(s.running, Handler(s.queue[i], Started), RUNNING_ID);
    Shift(Ids(RemoveAt(s.queue, i), QUEUED_ID), Ids(s.running, RUNNING_ID), Ids(s.delayed, DELAYED_ID), multiset(s.acked), multiset(s.lost), s.queue[i].id);
  }

  lemma RepublishConserves(cfg: Config, s: State, i: nat)
    requires Conserved(s) && Enabled(cfg, s, Republish(i))
    ensures Conserved(Apply(cfg, s, Republish(i)))
  {
    IdsSplit(s.delayed, i, DELAYED_ID);
    var m := s.delayed[i].msg;
    Shift(Ids(s.queue, QUEUED_ID), Ids(s.running, RUNNING_ID), Ids(RemoveAt(s.delayed, i), DELAYED_ID),
          multiset(s.acked), multiset(s.lost), m.id);
    if m.fields.routingKey == cfg.queue {
      IdsAppend(s.queue, m, QUEUED_ID);
    } else {
      assert multiset(s.lost + [m.id]) == multiset(s.lost) + multiset{m.id};
    }
  }

  lemma StepConserves(cfg: Config, s: State, step: Step)
    requires Conserved(s) && Enabled(cfg, s, step)
    ensures Conserved(Apply(cfg, s, step))
  {
    match step
    case Publish(id, payload, fields) =>
      IdsAppend(s.queue, Message(id, payload, 0, fields, None), QUEUED_ID);
      assert multiset(s.published + {id}) == multiset(s.published) + multiset{id};
    case Proceed(i, cached) => IdsUpdate(s.running, i, Apply(cfg, s, step).running[i], RUNNING_ID);
    case Fault(i, applied) => IdsUpdate(s.running, i, Apply(cfg, s, step).running[i], RUNNING_ID);
    case Settle(i) => SettleConserves(cfg, s, i);
    case Deliver(i) => DeliverConserves(cfg, s, i);
    case Republish(i) => RepublishConserves(cfg, s, i);
    case Tick(_) =>
    case EditEvent(_) =>
  }

  lemma {:induction false} ConservedHolds(cfg: Config, tr: seq<State>, steps: seq<Step>, k: nat)
    requires Run(cfg, tr, steps) && k < |tr|
    ensures Conserved(tr[k])
  {
    if k > 0 {
      ConservedHolds(cfg, tr, steps, k - 1);
      StepConserves(cfg, tr[k - 1], steps[k - 1]);
    }
  }

  /**
   Every message published has exactly one live copy (queued, being handled, or waiting to be
   published again) until it is acknowledged or lost, and none afterwards; it is acknowledged or
   lost at most once, never both, and nothing else is ever live.
   */
  lemma OneLiveCopyUntilAcked(cfg: Config, tr: seq<State>, steps: seq<Step>, k: nat, id: nat)
    requires Run(cfg, tr, steps) && k < |tr|
    ensures Live(tr[k])[id] == if id in tr[k].published && id !in tr[k].acked && id !in tr[k].lost then 1 else 0
    ensures multiset(tr[k].acked)[id] + multiset(tr[k].lost)[id] <= 1
    ensures id in tr[k].acked || id in tr[k].lost ==> id in tr[k].published
  {
    ConservedHolds(cfg, tr, steps, k);
    var s := tr[k];
    assert (Live(s) + multiset(s.acked) + multiset(s.lost))[id] == multiset(s.published)[id];
    assert id in s.acked <==> multiset(s.acked)[id] > 0;
    assert id in s.lost <==> multiset(s.lost)[id] > 0;
  }

  // ---------------------------------------------------------------- counting attempts

  predicate QueuedOk(cfg: Config, s: State, m: Message) {
    m.retries == s.failed[m.id] == s.started[m.id] && m.retries <= cfg.policy.maxRetries
  }

  predicate RunningOk(cfg: Config, s: State, m: Message) {
    m.retries == s.failed[m.id] && s.started[m.id] == m.retries + 1 && m.retries <= cfg.policy.maxRetries
  }

  /** Acknowledged: its last run succeeded, or every one of the allowed runs failed. */
  predicate AckedOk(cfg: Config, s: State, id: nat) {
    || (s.started[id] == s.failed[id] + 1 && s.failed[id] <= cfg.policy.maxRetries)
    || s.started[id] == s.failed[id] == cfg.policy.maxRetries + 1
  }

  /** Lost: every run so far has failed, and it might have been run again. */
  predicate LostOk(cfg: Config, s: State, id: nat) {
    s.started[id] == s.failed[id] && 1 <= s.failed[id] <= cfg.policy.maxRetries
  }

  ghost predicate AttemptsInv(cfg: Config, s: State) {
    && (forall i | 0 <= i < |s.queue| :: QueuedOk(cfg, s, s.queue[i]))
    && (forall i | 0 <= i < |s.running| :: RunningOk(cfg, s, s.running[i].msg))
    && (forall i | 0 <= i < |s.delayed| :: QueuedOk(cfg, s, s.delayed[i].msg) && s.delayed[i].msg.retries > 0)
    && (forall id | id in s.acked :: AckedOk(cfg, s, id))
    && (forall id | id in s.lost :: LostOk(cfg, s, id))
    && (forall id: nat | id !in s.published :: s.started[id] == 0 && s.failed[id] == 0)
  }

  /** The only copy of a message being handled is the one being handled. */
  lemma OnlyRunning(s: State, i: nat)
    requires Conserved(s) && i < |s.running|
    ensures var id := s.running[i].msg.id;
            && (forall j | 0 <= j < |s.queue| :: s.queue[j].id != id)
            && (forall j | 0 <= j < |RemoveAt(s.running, i)| :: RemoveAt(s.running, i)[j].msg.id != id)
            && (forall j | 0 <= j < |s.delayed| :: s.delayed[j].msg.id != id)
            && id !in s.acked && id !in s.lost && id in s.published
  {
    var id := s.running[i].msg.id;
    IdsSplit(s.running, i, RUNNING_ID);
    IdsMember(s.queue, QUEUED_ID);
    IdsMember(RemoveAt(s.running, i), RUNNING_ID);
    IdsMember(s.delayed, DELAYED_ID);
    assert (Live(s) + multiset(s.acked) + multiset(s.lost))[id] == multiset(s.published)[id] <= 1;
    assert forall j | 0 <= j < |s.queue| :: QUEUED_ID(s.queue[j]) in Ids(s.queue, QUEUED_ID);
    assert forall j | 0 <= j < |s.delayed| :: DELAYED_ID(s.delayed[j]) in Ids(s.delayed, DELAYED_ID);
    assert forall j | 0 <= j < |RemoveAt(s.running, i)| ::
        RUNNING_ID(RemoveAt(s.running, i)[j]) in Ids(RemoveAt(s.running, i), RUNNING_ID);
    assert id in s.acked <==> multiset(s.acked)[id] > 0;
    assert id in s.lost <==> multiset(s.lost)[id] > 0;
  }

  /** Likewise for a queued message. */
  lemma OnlyQueued(s: State, i: nat)
    requires Conserved(s) && i < |s.queue|
    ensures var id := s.queue[i].id;
            && (forall j | 0 <= j < |RemoveAt(s.queue, i)| :: RemoveAt(s.queue, i)[j].id != id)
            && (forall j | 0 <= j < |s.running| :: s.running[j].msg.id != id)
            && (forall j | 0 <= j < |s.delayed| :: s.delayed[j].msg.id != id)
            && id !in s.acked && id !in s.lost && id in s.published
  {
    var id := s.queue[i].id;
    IdsSplit(s.queue, i, QUEUED_ID);
    IdsMember(RemoveAt(s.queue, i), QUEUED_ID);
    IdsMember(s.running, RUNNING_ID);
    IdsMember(s.delayed, DELAYED_ID);
    assert (Live(s) + multiset(s.acked) + multiset(s.lost))[id] == multiset(s.published)[id] <= 1;
    assert forall j | 0 <= j < |s.running| :: RUNNING_ID(s.running[j]) in Ids(s.running, RUNNING_ID);
    assert forall j | 0 <= j < |s.delayed| :: DELAYED_ID(s.delayed[j]) in Ids(s.delayed, DELAYED_ID);
    assert forall j | 0 <= j < |RemoveAt(s.queue, i)| ::
        QUEUED_ID(RemoveAt(s.queue, i)[j]) in Ids(RemoveAt(s.queue, i), QUEUED_ID);
    assert id in s.acked <==> multiset(s.acked)[id] > 0;
    assert id in s.lost <==> multiset(s.lost)[id] > 0;
  }

  /** Everything live or acknowledged has been published. */
  lemma AllPublished(s: State)
    requires Conserved(s)
    ensures forall j | 0 <= j < |s.queue| :: s.queue[j].id in s.published
    ensures forall j | 0 <= j < |s.running| :: s.running[j].msg.id in s.published
    ensures forall j | 0 <= j < |s.delayed| :: s.delayed[j].msg.id in s.published
    ensures forall id | id in s.acked :: id in s.published
    ensures forall id | id in s.lost :: id in s.published
  {
    IdsMember(s.queue, QUEUED_ID);
    IdsMember(s.running, RUNNING_ID);
    IdsMember(s.delayed, DELAYED_ID);
    var all := Live(s) + multiset(s.acked) + multiset(s.lost);
    assert forall id | id in all :: id in multiset(s.published);
    assert forall j | 0 <= j < |s.queue| :: QUEUED_ID(s.queue[j]) in all;
    assert forall j | 0 <= j < |s.running| :: RUNNING_ID(s.running[j]) in all;
    assert forall j | 0 <= j < |s.delayed| :: DELAYED_ID(s.delayed[j]) in all;
    forall id | id in s.acked ensures id in s.published {
      assert id in multiset(s.acked) && id in all;
    }
    forall id | id in s.lost ensures id in s.published {
      assert id in multiset(s.lost) && id in all;
    }
  }

  lemma DeliverAttempts(cfg: Config, s: State, i: nat)
    requires Conserved(s) && AttemptsInv(cfg, s) && i < |s.queue|
    ensures AttemptsInv(cfg, Apply(cfg, s, Deliver(i)))
  {
    OnlyQueued(s, i);
    AllPublished(s);
    assert QueuedOk(cfg, s, s.queue[i]);
    var s' := Apply(cfg, s, Deliver(i));
    var id := s.queue[i].id;
    assert forall x | x != id :: s'.started[x] == s.started[x];
    forall j | 0 <= j < |s'.queue| ensures QueuedOk(cfg, s', s'.queue[j]) {
      assert s'.queue[j] == if j < i then s.queue[j] else s.queue[j + 1];
    }
    forall j | 0 <= j < |s'.running| ensures RunningOk(cfg, s', s'.running[j].msg) {
      if j < |s.running| {
        assert s'.running[j] == s.running[j];
      }
    }
    forall x | x in s'.acked ensures AckedOk(cfg, s', x) {
      assert AckedOk(cfg, s, x);
    }
    forall x | x in s'.lost ensures LostOk(cfg, s', x) {
      assert LostOk(cfg, s, x);
    }
  }

  lemma SettleAttempts(cfg: Config, s: State, i: nat)
    requires Conserved(s) && AttemptsInv(cfg, s) && Enabled(cfg, s, Settle(i))
    ensures AttemptsInv(cfg, Apply(cfg, s, Settle(i)))
  {
    OnlyRunning(s, i);
    AllPublished(s);
    var m := s.running[i].msg;
    assert RunningOk(cfg, s, m);
    var s' := Apply(cfg, s, Settle(i));
    assert forall x | x != m.id :: s'.failed[x] == s.failed[x];
    forall j | 0 <= j < |s'.running| ensures RunningOk(cfg, s', s'.running[j].msg) {
      assert s'.running[j] == if j < i then s.running[j] else s.running[j + 1];
    }
    forall j | 0 <= j < |s'.queue| ensures QueuedOk(cfg, s', s'.queue[j]) {
      assert QueuedOk(cfg, s, s.queue[j]);
    }
    forall j | 0 <= j < |s'.delayed| ensures QueuedOk(cfg, s', s'.delayed[j].msg) && s'.delayed[j].msg.retries > 0 {
      if j < |s.delayed| {
        assert QueuedOk(cfg, s, s.delayed[j].msg);
      }
    }
    forall x | x in s'.acked ensures AckedOk(cfg, s', x) {
      if x != m.id {
        assert AckedOk(cfg, s, x);
      }
    }
    forall x | x in s'.lost ensures LostOk(cfg, s', x) {
      assert LostOk(cfg, s, x);
    }
  }

  lemma RepublishAttempts(cfg: Config, s: State, i: nat)
    requires AttemptsInv(cfg, s) && Enabled(cfg, s, Republish(i))
    ensures AttemptsInv(cfg, Apply(cfg, s, Republish(i)))
  {
    var ds := RemoveAt(s.delayed, i);
    assert QueuedOk(cfg, s, s.delayed[i].msg) && s.delayed[i].msg.retries > 0;
    assert forall j | 0 <= j < |ds| :: ds[j] == if j < i then s.delayed[j] else s.delayed[j + 1];
  }

  /** Steps that neither start nor end a run. */
  lemma QuietAttempts(cfg: Config, s: State, step: Step)
    requires Conserved(s) && AttemptsInv(cfg, s) && Enabled(cfg, s, step)
    requires step.Publish? || step.Proceed? || step.Fault? || step.Tick? || step.EditEvent?
    ensures AttemptsInv(cfg, Apply(cfg, s, step))
  {
    AllPublished(s);
    var s' := Apply(cfg, s, step);
    assert s'.started == s.started && s'.failed == s.failed && s'.delayed == s.delayed && s'.acked == s.acked && s'.lost == s.lost;
    forall j | 0 <= j < |s'.running| ensures RunningOk(cfg, s', s'.running[j].msg) {
      assert s'.running[j].msg == s.running[j].msg;
    }
  }

  lemma StepAttempts(cfg: Config, s: State, step: Step)
    requires Conserved(s) && AttemptsInv(cfg, s) && Enabled(cfg, s, step)
    ensures AttemptsInv(cfg, Apply(cfg, s, step))
  {
    if step.Deliver? {
      DeliverAttempts(cfg, s, step.i);
    } else if step.Settle? {
      SettleAttempts(cfg, s, step.i);
    } else if step.Republish? {
      RepublishAttempts(cfg, s, step.i);
    } else {
      QuietAttempts(cfg, s, step);
    }
  }

  lemma {:induction false} AttemptsHold(cfg: Config, tr: seq<State>, steps: seq<Step>, k: nat)
    requires Run(cfg, tr, steps) && k < |tr|
    ensures AttemptsInv(cfg, tr[k])
  {
    if k > 0 {
      ConservedHolds(cfg, tr, steps, k - 1);
      AttemptsHold(cfg, tr, steps, k - 1);
      StepAttempts(cfg, tr[k - 1], steps[k - 1]);
    }
  }

  /**
   `x-retry-count` is the number of failed runs so far, wherever the copy is; a message's
   handler runs at most `maxRetries + 1` times; and one that is acknowledged without success
   has used them all up.
   */
  lemma RetriesCountFailures(cfg: Config, tr: seq<State>, steps: seq<Step>, k: nat)
    requires Run(cfg, tr, steps) && k < |tr|
    ensures forall i | 0 <= i < |tr[k].queue| :: tr[k].queue[i].retries == tr[k].failed[tr[k].queue[i].id]
    ensures forall i | 0 <= i < |tr[k].running| :: tr[k].running[i].msg.retries == tr[k].failed[tr[k].running[i].msg.id]
    ensures forall i | 0 <= i < |tr[k].delayed| :: tr[k].delayed[i].msg.retries == tr[k].failed[tr[k].delayed[i].msg.id]
    ensures forall id: nat :: tr[k].started[id] <= cfg.policy.maxRetries + 1
    ensures forall id | id in tr[k].acked && tr[k].failed[id] == tr[k].started[id] ::
              tr[k].failed[id] == cfg.policy.maxRetries + 1
  {
    AttemptsHold(cfg, tr, steps, k);
    var s := tr[k];
    forall id: nat ensures s.started[id] <= cfg.policy.maxRetries + 1 {
      OneLiveCopyUntilAcked(cfg, tr, steps, k, id);
      if id in s.published && id !in s.acked && id !in s.lost {
        LiveSomewhere(s, id);
      }
    }
  }

  lemma IdsWitness<T>(s: seq<T>, id: T -> nat, x: nat) returns (i: nat)
    requires x in Ids(s, id)
    ensures i < |s| && id(s[i]) == x
  {
    assert x in IdSeq(s, id);
    i :| i < |s| && IdSeq(s, id)[i] == x;
  }

  lemma LiveSomewhere(s: State, id: nat)
    requires id in Live(s)
    ensures || (exists i :: 0 <= i < |s.queue| && s.queue[i].id == id)
            || (exists i :: 0 <= i < |s.running| && s.running[i].msg.id == id)
            || (exists i :: 0 <= i < |s.delayed| && s.delayed[i].msg.id == id)
  {
    if id in Ids(s.queue, QUEUED_ID) {
      var i := IdsWitness(s.queue, QUEUED_ID, id);
    } else if id in Ids(s.running, RUNNING_ID) {
      var i := IdsWitness(s.running, RUNNING_ID, id);
    } else {
      var i := IdsWitness(s.delayed, DELAYED_ID, id);
    }
  }

  // ---------------------------------------------------------------- waiting between runs

  /** Step `j` settles a failed run of `m`. */
  ghost predicate FailsAt(tr: seq<State>, steps: seq<Step>, j: nat, m: Message) {
    && j < |steps| && j < |tr| && steps[j].Settle? && steps[j].i < |tr[j].running|
    && tr[j].running[steps[j].i] == Handler(m, Failed)
  }

  ghost predicate CopyOk(cfg: Config, tr: seq<State>, steps: seq<Step>, k: nat, d: Delayed) {
    exists j, m :: 0 <= j < k && FailsAt(tr, steps, j, m)
                   && d.msg == RetryCopy(m, m.retries + 1)
                   && d.due == tr[j].now + cfg.policy.retryDelay * d.msg.retries
  }

  lemma CopyOkLater(cfg: Config, tr: seq<State>, steps: seq<Step>, k: nat, d: Delayed)
    requires CopyOk(cfg, tr, steps, k, d)
    ensures CopyOk(cfg, tr, steps, k + 1, d)
  {
    var j, m :| 0 <= j < k && FailsAt(tr, steps, j, m) && d.msg == RetryCopy(m, m.retries + 1)
                && d.due == tr[j].now + cfg.policy.retryDelay * d.msg.retries;
    assert j < k + 1;
  }

  lemma NewCopyOk(cfg: Config, tr: seq<State>, steps: seq<Step>, k: nat, m: Message)
    requires FailsAt(tr, steps, k, m) && m.retries < cfg.policy.maxRetries
    ensures CopyOk(cfg, tr, steps, k + 1, OnFailure(cfg.policy, m, tr[k].now).copy)
  {
    assert k < k + 1;
  }

  /** A waiting copy was waiting before, or has just been made by a failed run. */
  lemma WaitingBefore(cfg: Config, s: State, step: Step, n: nat)
    requires Enabled(cfg, s, step) && n < |Apply(cfg, s, step).delayed|
    ensures var d := Apply(cfg, s, step).delayed[n];
            || d in s.delayed
            || (&& step.Settle? && s.running[step.i].phase == Failed
                && s.running[step.i].msg.retries < cfg.policy.maxRetries
                && d == OnFailure(cfg.policy, s.running[step.i].msg, s.now).copy)
  {
    if step.Republish? {
      assert Apply(cfg, s, step).delayed[n] == s.delayed[if n < step.i then n else n + 1];
    }
  }

  lemma {:induction false} CopiesComeFromFailures(cfg: Config, tr: seq<State>, steps: seq<Step>, k: nat)
    requires Trace(cfg, tr, steps) && tr[0].delayed == [] && k < |tr|
    ensures forall d | d in tr[k].delayed :: CopyOk(cfg, tr, steps, k, d)
  {
    if k > 0 {
      CopiesComeFromFailures(cfg, tr, steps, k - 1);
      forall d | d in tr[k].delayed ensures CopyOk(cfg, tr, steps, k, d) {
        var n :| 0 <= n < |tr[k].delayed| && tr[k].delayed[n] == d;
        WaitingBefore(cfg, tr[k - 1], steps[k - 1], n);
        if d in tr[k - 1].delayed {
          CopyOkLater(cfg, tr, steps, k - 1, d);
        } else {
          NewCopyOk(cfg, tr, steps, k - 1, tr[k - 1].running[steps[k - 1].i].msg);
        }
      }
    }
  }

  /**
   A message comes back to the queue for its n-th retry only after a failed run of the same
   message, counted n - 1, and no sooner than n times the retry delay after it.
   */
  lemma RetryWaitsItsTurn(cfg: Config, tr: seq<State>, steps: seq<Step>, k: nat)
    requires Run(cfg, tr, steps) && k < |steps| && steps[k].Republish?
    ensures var m := tr[k].delayed[steps[k].i].msg;
            && tr[k + 1].queue == tr[k].queue + (if m.fields.routingKey == cfg.queue then [m] else [])
            && exists j, before :: 0 <= j < k && FailsAt(tr, steps, j, before)
                                   && m == RetryCopy(before, before.retries + 1)
                                   && tr[k].now >= tr[j].now + cfg.policy.retryDelay * m.retries
  {
    CopiesComeFromFailures(cfg, tr, steps, k);
    assert CopyOk(cfg, tr, steps, k, tr[k].delayed[steps[k].i]);
  }

  // ---------------------------------------------------------------- it comes to an end

  const RUN_COST: nat := 10

  function RunsLeft(cfg: Config, m: Message): nat {
    if m.retries < cfg.policy.maxRetries then (cfg.policy.maxRetries - m.retries) * RUN_COST else 0
  }

  function Total<T>(s: seq<T>, weight: T -> nat): nat {
    if s == [] then 0 else weight(s[0]) + Total(s[1..], weight)
  }

  lemma {:induction false} TotalConcat<T>(a: seq<T>, b: seq<T>, weight: T -> nat)
    ensures Total(a + b, weight) == Total(a, weight) + Total(b, weight)
  {
    if a == [] {
      assert a + b == b;
    } else {
      TotalConcat(a[1..], b, weight);
      assert (a + b)[1..] == a[1..] + b;
    }
  }

  lemma TotalAppend<T>(s: seq<T>, x: T, weight: T -> nat)
    ensures Total(s + [x], weight) == Total(s, weight) + weight(x)
  {
    TotalConcat(s, [x], weight);
    assert [x][1..] == [];
  }

  lemma TotalUpdate<T>(s: seq<T>, i: nat, x: T, weight: T -> nat)
    requires i < |s|
    ensures Total(s[i := x], weight) == Total(RemoveAt(s, i), weight) + weight(x)
  {
    assert s[i := x] == s[..i] + [x] + s[i + 1..];
    TotalAppend(s[..i], x, weight);
    TotalConcat(s[..i] + [x], s[i + 1..], weight);
    TotalConcat(s[..i], s[i + 1..], weight);
  }

  lemma TotalSplit<T>(s: seq<T>, i: nat, weight: T -> nat)
    requires i < |s|
    ensures Total(s, weight) == Total(RemoveAt(s, i), weight) + weight(s[i])
  {
    TotalUpdate(s, i, s[i], weight);
    assert s[i := s[i]] == s;
  }

  /** Steps a queued message, a handler or a waiting copy may still take, its retries included. */
  function QueuedWork(cfg: Config): Message -> nat {
    (m: Message) => RunsLeft(cfg, m) + 9
  }

  function HandlerWork(cfg: Config): Handler -> nat {
    (h: Handler) => RunsLeft(cfg, h.msg) + Rank(h.phase)
  }

  function DelayedWork(cfg: Config): Delayed -> nat {
    (d: Delayed) => RunsLeft(cfg, d.msg) + 10
  }

  /** Steps the pipeline can still take without being given new messages. */
  function Work(cfg: Config, s: State): nat {
    Total(s.queue, QueuedWork(cfg)) + Total(s.running, HandlerWork(cfg)) + Total(s.delayed, DelayedWork(cfg))
  }

  predicate IsWork(step: Step) {
    step.Deliver? || step.Proceed? || step.Fault? || step.Settle? || step.Republish?
  }

  function NewWork(cfg: Config, step: Step): nat {
    if step.Publish? then cfg.policy.maxRetries * RUN_COST + 9 else 0
  }

  lemma RetryCostsLess(cfg: Config, m: Message, now: nat)
    requires m.retries < cfg.policy.maxRetries
    ensures RunsLeft(cfg, m) == RunsLeft(cfg, OnFailure(cfg.policy, m, now).copy.msg) + RUN_COST
  {}

  lemma SettleUsesWork(cfg: Config, s: State, i: nat)
    requires Enabled(cfg, s, Settle(i))
    ensures Work(cfg, Apply(cfg, s, Settle(i))) < Work(cfg, s)
  {
    var m := s.running[i].msg;
    TotalSplit(s.running, i, HandlerWork(cfg));
    if !s.running[i].phase.Succeeded? && m.retries < cfg.policy.maxRetries {
      RetryCostsLess(cfg, m, s.now);
      TotalAppend(s.delayed, OnFailure(cfg.policy, m, s.now).copy, DelayedWork(cfg));
    }
  }

  lemma RepublishUsesWork(cfg: Config, s: State, i: nat)
    requires Enabled(cfg, s, Republish(i))
    ensures Work(cfg, Apply(cfg, s, Republish(i))) < Work(cfg, s)
  {
    TotalSplit(s.delayed, i, DelayedWork(cfg));
    if s.delayed[i].msg.fields.routingKey == cfg.queue {
      TotalAppend(s.queue, s.delayed[i].msg, QueuedWork(cfg));
    }
  }

  lemma DeliverUsesWork(cfg: Config, s: State, i: nat)
    requires Enabled(cfg, s, Deliver(i))
    ensures Work(cfg, Apply(cfg, s, Deliver(i))) < Work(cfg, s)
  {
    TotalSplit(s.queue, i, QueuedWork(cfg));
    TotalAppend(s.running, Handler(s.queue[i], Started), HandlerWork(cfg));
  }

  lemma ProceedUsesWork(cfg: Config, s: State, step: Step)
    requires (step.Proceed? || step.Fault?) && Enabled(cfg, s, step)
    ensures Work(cfg, Apply(cfg, s, step)) < Work(cfg, s)
  {
    var h, h' := s.running[step.i], Apply(cfg, s, step).running[step.i];
    assert Rank(h'.phase) < Rank(h.phase) by {
      if step.Proceed? {
        AdvanceCases(cfg.validators, s.now, s.events.docs, s.requests, h, step.cached);
      }
    }
    TotalSplit(s.running, step.i, HandlerWork(cfg));
    TotalUpdate(s.running, step.i, h', HandlerWork(cfg));
  }

  /** Every step of the pipeline itself uses up work; only new messages add some. */
  lemma StepUsesWork(cfg: Config, s: State, step: Step)
    requires Enabled(cfg, s, step)
    ensures Work(cfg, Apply(cfg, s, step)) + (if IsWork(step) then 1 else 0) <= Work(cfg, s) + NewWork(cfg, step)
  {
    if step.Publish? {
      TotalAppend(s.queue, Message(step.id, step.payload, 0, step.fields, None), QueuedWork(cfg));
    } else if step.Deliver? {
      DeliverUsesWork(cfg, s, step.i);
    } else if step.Settle? {
      SettleUsesWork(cfg, s, step.i);
    } else if step.Republish? {
      RepublishUsesWork(cfg, s, step.i);
    } else if step.Proceed? || step.Fault? {
      ProceedUsesWork(cfg, s, step);
    }
  }

  function WorkSteps(steps: seq<Step>): nat {
    if steps == [] then 0
    else WorkSteps(steps[..|steps| - 1]) + if IsWork(steps[|steps| - 1]) then 1 else 0
  }

  /** Ten steps for every run a published message is allowed. */
  function Budget(cfg: Config, steps: seq<Step>): nat {
    if steps == [] then 0
    else Budget(cfg, steps[..|steps| - 1])
         + if steps[|steps| - 1].Publish? then (cfg.policy.maxRetries + 1) * RUN_COST else 0
  }

  /**
   However steps interleave and whatever fails, the pipeline takes at most a fixed number of
   steps for each message published: ten for every run allowed. No run can retry for ever.
   */
  lemma {:induction false} WorkIsBounded(cfg: Config, tr: seq<State>, steps: seq<Step>)
    requires Trace(cfg, tr, steps)
    ensures WorkSteps(steps) + Work(cfg, tr[|steps|])
         <= Work(cfg, tr[0]) + Budget(cfg, steps)
  {
    if steps != [] {
      var n := |steps| - 1;
      WorkIsBounded(cfg, tr[..n + 1], steps[..n]);
      StepUsesWork(cfg, tr[n], steps[n]);
    }
  }

  /** And it never gets stuck: while anything is live, waiting long enough enables a step. */
  lemma NeverStuck(cfg: Config, s: State) returns (wait: nat, step: Step)
    requires !Drained(s)
    ensures IsWork(step) && !step.Fault? && Enabled(cfg, Apply(cfg, s, Tick(wait)), step)
  {
    wait := 0;
    if s.running != [] {
      step := if Finished(s.running[0].phase) then Settle(0) else Proceed(0, false);
    } else if s.queue != [] {
      step := Deliver(0);
    } else {
      wait := s.delayed[0].due;
      step := Republish(0);
    }
  }

  // ---------------------------------------------------------------- every run can be drained

  function Last(tr: seq<State>): State
    requires tr != []
  {
    tr[|tr| - 1]
  }

  /** `tr2` goes on where `tr` stops, without faults and without new messages. */
  ghost predicate GoesOn(cfg: Config, tr: seq<State>, steps: seq<Step>, tr2: seq<State>, steps2: seq<Step>) {
    && Run(cfg, tr2, steps2) && tr <= tr2 && steps <= steps2
    && forall k | |steps| <= k < |steps2| :: !steps2[k].Fault? && !steps2[k].Publish?
  }

  lemma Go(cfg: Config, tr: seq<State>, steps: seq<Step>, step: Step) returns (tr2: seq<State>, steps2: seq<Step>)
    requires Run(cfg, tr, steps) && Enabled(cfg, Last(tr), step)
    ensures Run(cfg, tr2, steps2) && tr <= tr2 && steps2 == steps + [step]
    ensures !step.Fault? && !step.Publish? ==> GoesOn(cfg, tr, steps, tr2, steps2)
    ensures Last(tr2) == Apply(cfg, Last(tr), step)
  {
    tr2, steps2 := tr + [Apply(cfg, Last(tr), step)], steps + [step];
    forall k | 0 <= k < |steps2| ensures Enabled(cfg, tr2[k], steps2[k]) && tr2[k + 1] == Apply(cfg, tr2[k], steps2[k]) {
      if k < |steps| {
        assert tr2[k] == tr[k] && tr2[k + 1] == tr[k + 1] && steps2[k] == steps[k];
      }
    }
  }

  /** Whatever has happened, the pipeline can go on, on its own and without faults, until nothing is live. */
  lemma {:induction false} EveryRunCanDrain(cfg: Config, tr: seq<State>, steps: seq<Step>)
    returns (tr2: seq<State>, steps2: seq<Step>)
    requires Run(cfg, tr, steps)
    ensures GoesOn(cfg, tr, steps, tr2, steps2)
    ensures Drained(Last(tr2))
    decreases Work(cfg, Last(tr))
  {
    if Drained(Last(tr)) {
      tr2, steps2 := tr, steps;
    } else {
      var wait, step := NeverStuck(cfg, Last(tr));
      StepUsesWork(cfg, Last(tr), Tick(wait));
      tr2, steps2 := Go(cfg, tr, steps, Tick(wait));
      StepUsesWork(cfg, Last(tr2), step);
      tr2, steps2 := Go(cfg, tr2, steps2, step);
      tr2, steps2 := EveryRunCanDrain(cfg, tr2, steps2);
    }
  }
}
