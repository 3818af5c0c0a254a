/**
 Whole runs over the event collection: any number of updates, each split between reading (with
 its checks) and the conditional write, interleaved with creations, removals, restorations and
 permanent deletions. Assumed: the database never reuses an identifier.
 */
module EventRuns {
  import opened Prelude
  import opened Events

  /** An update that has read `seen` and passed its checks, its write still to come. */
  datatype Pending = Pending(id: string, patch: Patch, who: string, version: int, seen: Event, startDate: int, endDate: int)

  /** What has happened to a document; an update, removal or restoration records the version it found. */
  datatype Change =
    | Born(id: string)
    | Updated(id: string, version: int)
    | Deleted(id: string, version: int)
    | Revived(id: string, version: int)
    | Purged(id: string)

  datatype State = State(docs: Docs, updates: map<nat, Pending>, log: seq<Change>, used: set<string>)

  datatype Step =
    | CreateEvent(id: string, dto: NewEvent, who: string)
    | BeginUpdate(op: nat, id: string, patch: Patch, who: string, version: int)
    | CommitUpdate(op: nat)
    | RemoveEvent(id: string, who: string, now: int)
    | RestoreEvent(id: string, who: string)
    | PurgeEvent(id: string)

  predicate Enabled(s: State, step: Step) {
    match step
    case CreateEvent(id, dto, _) => id !in s.used && dto.startDate < dto.endDate
    case BeginUpdate(op, id, patch, _, version) => op !in s.updates && UpdateCheck(s.docs, id, patch, version).Ok?
    case CommitUpdate(op) => op in s.updates
    case RemoveEvent(id, _, _) => FindOne(s.docs, id, false).Some?
    case RestoreEvent(id, _) => id in s.docs && s.docs[id].deletedAt.Some?
    case PurgeEvent(id) => id in s.docs
  }

  /** The outcome of a pending update's conditional write in `s`. */
  function Commit(refuses: bool, s: State, p: Pending): Result<Docs, EventError> {
    CompareAndSet(s.docs, p.id, p.version, p.patch, p.startDate, p.endDate, p.who, refuses)
  }

  function Apply(refuses: bool, s: State, step: Step): State
    requires Enabled(s, step)
  {
    match step
    case CreateEvent(id, dto, who) =>
      s.(docs := s.docs[id := NewDocument(dto, who)], used := s.used + {id}, log := s.log + [Born(id)])
    case BeginUpdate(op, id, patch, who, version) =>
      var seen := UpdateCheck(s.docs, id, patch, version).value;
      s.(updates := s.updates[op := Pending(id, patch, who, version, seen, PatchedStart(patch, seen), PatchedEnd(patch, seen))])
    case CommitUpdate(op) =>
      var p := s.updates[op];
      var r := Commit(refuses, s, p);
      if r.Err? then s.(updates := s.updates - {op})
      else s.(docs := r.value, updates := s.updates - {op}, log := s.log + [Updated(p.id, p.version)])
    case RemoveEvent(id, who, now) =>
      s.(docs := s.docs[id := Removed(s.docs[id], who, now)], log := s.log + [Deleted(id, s.docs[id].version)])
    case RestoreEvent(id, who) =>
      s.(docs := s.docs[id := Restored(s.docs[id], who)], log := s.log + [Revived(id, s.docs[id].version)])
    case PurgeEvent(id) =>
      s.(docs := s.docs - {id}, log := s.log + [Purged(id)])
  }

  ghost predicate Init(s: State) {
    s.docs == map[] && s.updates == map[] && s.log == [] && s.used == {}
  }

  ghost predicate Run(refuses: bool, tr: seq<State>, steps: seq<Step>) {
    && |tr| == |steps| + 1
    && Init(tr[0])
    && forall k | 0 <= k < |steps| :: Enabled(tr[k], steps[k]) && tr[k + 1] == Apply(refuses, tr[k], steps[k])
  }

  // ---------------------------------------------------------------- invariant

  predicate Bumps(c: Change, id: string) {
    (c.Updated? || c.Deleted? || c.Revived?) && c.id == id
  }

  /** How many updates, removals and restorations the log holds for `id`. */
  function Bumped(log: seq<Change>, id: string): nat {
    if log == [] then 0
    else Bumped(log[..|log| - 1], id) + if Bumps(log[|log| - 1], id) then 1 else 0
  }

  predicate PendingOk(docs: Docs, used: set<string>, p: Pending) {
    && p.id in used
    && p.seen.version == p.version && p.seen.deletedAt.None?
    && p.startDate == PatchedStart(p.patch, p.seen) && p.endDate == PatchedEnd(p.patch, p.seen)
    && p.startDate < p.endDate
    // equal version means equal document, and versions only grow
    && (p.id in docs ==> docs[p.id].version >= p.version)
    && (p.id in docs && docs[p.id].version == p.version ==> docs[p.id] == p.seen)
  }

  ghost predicate DocInv(s: State) {
    && s.docs.Keys <= s.used
    && (forall id | id in s.docs :: s.docs[id].startDate < s.docs[id].endDate)
    && (forall id | id in s.docs :: s.docs[id].version == Bumped(s.log, id))
    && (forall id | id !in s.used :: Bumped(s.log, id) == 0)
  }

  ghost predicate PendingInv(s: State) {
    forall op | op in s.updates :: PendingOk(s.docs, s.used, s.updates[op])
  }

  ghost predicate LogInv(log: seq<Change>) {
    forall i | 0 <= i < |log| && log[i].Updated? :: log[i].version == Bumped(log[..i], log[i].id)
  }

  ghost predicate Inv(s: State) {
    DocInv(s) && PendingInv(s) && LogInv(s.log)
  }

  lemma BumpedAppend(log: seq<Change>, c: Change, id: string)
    ensures Bumped(log + [c], id) == Bumped(log, id) + if Bumps(c, id) then 1 else 0
  {
    assert (log + [c])[..|log|] == log;
  }

  lemma LogInvAppend(log: seq<Change>, c: Change)
    requires LogInv(log)
    requires c.Updated? ==> c.version == Bumped(log, c.id)
    ensures LogInv(log + [c])
  {
    var log' := log + [c];
    forall i | 0 <= i < |log'| && log'[i].Updated? ensures log'[i].version == Bumped(log'[..i], log'[i].id) {
      assert log'[..i] == if i < |log| then log[..i] else log;
    }
  }

  /** A step that is logged changes one document, and logs the version it found. */
  lemma LoggedChange(refuses: bool, s: State, step: Step) returns (c: Change)
    requires Inv(s) && Enabled(s, step)
    requires Apply(refuses, s, step).log != s.log
    ensures Apply(refuses, s, step).log == s.log + [c]
    ensures c.Updated? ==> c.id in s.docs && s.docs[c.id].version == c.version
    ensures c.id in Apply(refuses, s, step).used
    ensures forall id | id in Apply(refuses, s, step).docs ::
              var e := Apply(refuses, s, step).docs[id];
              && (id == c.id || (id in s.docs && e == s.docs[id]))
              && (id == c.id && Bumps(c, id) ==> id in s.docs && e.version == s.docs[id].version + 1)
              && (id == c.id && !Bumps(c, id) ==> id !in s.used && e.version == 0)
  {
    c := Apply(refuses, s, step).log[|s.log|];
    if step.CommitUpdate? {
      assert PendingOk(s.docs, s.used, s.updates[step.op]);
    }
  }

  lemma StepDates(refuses: bool, s: State, step: Step)
    requires Inv(s) && Enabled(s, step)
    ensures var s' := Apply(refuses, s, step);
            s'.docs.Keys <= s'.used && s.used <= s'.used && forall id | id in s'.docs :: s'.docs[id].startDate < s'.docs[id].endDate
  {
    if step.CommitUpdate? {
      assert PendingOk(s.docs, s.used, s.updates[step.op]);
    }
  }

  lemma StepCounts(refuses: bool, s: State, step: Step, id: string)
    requires Inv(s) && Enabled(s, step)
    ensures var s' := Apply(refuses, s, step);
            && (id in s'.docs ==> s'.docs[id].version == Bumped(s'.log, id))
            && (id !in s'.used ==> Bumped(s'.log, id) == 0)
  {
    StepDates(refuses, s, step);
    if Apply(refuses, s, step).log != s.log {
      var c := LoggedChange(refuses, s, step);
      BumpedAppend(s.log, c, id);
    }
  }

  lemma StepDocs(refuses: bool, s: State, step: Step)
    requires Inv(s) && Enabled(s, step)
    ensures DocInv(Apply(refuses, s, step))
    ensures LogInv(Apply(refuses, s, step).log)
  {
    StepDates(refuses, s, step);
    forall id {
      StepCounts(refuses, s, step, id);
    }
    if Apply(refuses, s, step).log != s.log {
      var c := LoggedChange(refuses, s, step);
      LogInvAppend(s.log, c);
    }
  }

  lemma PendingStays(refuses: bool, s: State, step: Step, p: Pending)
    requires Inv(s) && Enabled(s, step) && PendingOk(s.docs, s.used, p)
    ensures PendingOk(Apply(refuses, s, step).docs, Apply(refuses, s, step).used, p)
  {
    StepDates(refuses, s, step);
    if Apply(refuses, s, step).log != s.log {
      var c := LoggedChange(refuses, s, step);
    }
  }

  lemma StepPending(refuses: bool, s: State, step: Step)
    requires Inv(s) && Enabled(s, step)
    ensures PendingInv(Apply(refuses, s, step))
  {
    var s' := Apply(refuses, s, step);
    forall op | op in s'.updates ensures PendingOk(s'.docs, s'.used, s'.updates[op]) {
      if op in s.updates {
        PendingStays(refuses, s, step, s.updates[op]);
      }
    }
  }

  lemma StepKeepsInv(refuses: bool, s: State, step: Step)
    requires Inv(s) && Enabled(s, step)
    ensures Inv(Apply(refuses, s, step))
  {
    StepDocs(refuses, s, step);
    StepPending(refuses, s, step);
  }

  lemma {:induction false} InvHolds(refuses: bool, tr: seq<State>, steps: seq<Step>, k: nat)
    requires Run(refuses, tr, steps) && k < |tr|
    ensures Inv(tr[k])
  {
    if k > 0 {
      InvHolds(refuses, tr, steps, k - 1);
      StepKeepsInv(refuses, tr[k - 1], steps[k - 1]);
    }
  }

  // ---------------------------------------------------------------- main results

  /**
   Optimistic locking works: whatever happened between an update's read and its write, the
   write succeeds exactly when the document still stands at the version named (and the database
   takes the update), and then it is the atomic patch of the document as it stands NOW. Dates
   missing from the patch keep their current values; nothing concurrent is lost; deleting and
   restoring in between cannot bring the old version back.
   */
  lemma CommitIsAtomicPatch(refuses: bool, tr: seq<State>, steps: seq<Step>, k: nat)
    requires Run(refuses, tr, steps) && k < |steps| && steps[k].CommitUpdate?
    ensures var s, p := tr[k], tr[k].updates[steps[k].op];
            && (Commit(refuses, s, p).Ok?
                <==> (&& p.id in s.docs && s.docs[p.id].version == p.version
                      && !(refuses && p.patch.version.Some?)))
            && (Commit(refuses, s, p).Ok? ==>
                  && s.docs[p.id] == p.seen
                  && tr[k + 1].docs == s.docs[p.id := AtomicPatch(s.docs[p.id], p.patch, p.who)]
                  && IsPatched(s.docs[p.id], tr[k + 1].docs[p.id], p.patch, p.who))
            && (Commit(refuses, s, p).Err? ==> tr[k + 1].docs == s.docs && tr[k + 1].log == s.log)
  {
    InvHolds(refuses, tr, steps, k);
    assert Enabled(tr[k], steps[k]);
    assert PendingOk(tr[k].docs, tr[k].used, tr[k].updates[steps[k].op]);
  }

  /** The version of a document counts what has been done to it, and its dates stay in order. */
  lemma VersionCountsChanges(refuses: bool, tr: seq<State>, steps: seq<Step>, k: nat, id: string)
    requires Run(refuses, tr, steps) && k < |tr| && id in tr[k].docs
    ensures tr[k].docs[id].version == Bumped(tr[k].log, id)
    ensures tr[k].docs[id].startDate < tr[k].docs[id].endDate
  {
    InvHolds(refuses, tr, steps, k);
  }

  lemma {:induction false} BumpedMonotone(log: seq<Change>, i: nat, j: nat, id: string)
    requires i <= j <= |log|
    ensures Bumped(log[..i], id) <= Bumped(log[..j], id)
    decreases j
  {
    if i < j {
      BumpedMonotone(log, i, j - 1, id);
      assert log[..j][..j - 1] == log[..j - 1];
    }
  }

  /** Of all updates that name the same version of a document, at most one ever succeeds. */
  lemma OneWinnerPerVersion(refuses: bool, tr: seq<State>, steps: seq<Step>, k: nat, i: nat, j: nat)
    requires Run(refuses, tr, steps) && k < |tr|
    requires i < j < |tr[k].log| && tr[k].log[i].Updated? && tr[k].log[j].Updated?
    ensures tr[k].log[i] != tr[k].log[j]
  {
    InvHolds(refuses, tr, steps, k);
    var log := tr[k].log;
    var id := log[i].id;
    assert log[..i + 1][..i] == log[..i];
    BumpedMonotone(log, i + 1, j, id);
  }

  /**
   If the database refuses an update that both sets and increments `version`, an update whose
   body carries a version never goes through; and the body always carries one
   (update-event.dto.ts declares it mandatory).
   */
  lemma BodyVersionBlocksUpdate(refuses: bool, tr: seq<State>, steps: seq<Step>, k: nat)
    requires Run(refuses, tr, steps) && k < |steps| && steps[k].CommitUpdate?
    requires tr[k].updates[steps[k].op].patch.version.Some?
    ensures refuses ==> tr[k + 1].docs == tr[k].docs
    ensures !refuses && Commit(refuses, tr[k], tr[k].updates[steps[k].op]).Ok? ==>
              var id := tr[k].updates[steps[k].op].id;
              tr[k + 1].docs[id].version == tr[k].docs[id].version + 1
  {
    assert Enabled(tr[k], steps[k]);
  }

  /** An event is created and one update of it, naming version 0, is begun and committed. */
  function CreateThenUpdate(id: string, dto: NewEvent, patch: Patch, who: string): seq<Step> {
    [CreateEvent(id, dto, who), BeginUpdate(0, id, patch, who, 0), CommitUpdate(0)]
  }

  /**
   The very first update of an event as its body must be (naming version 0, in the body too)
   passes every check; whether it changes anything is up to the database alone.
   */
  lemma FirstUpdateIsRefused(refuses: bool, id: string, dto: NewEvent, patch: Patch, who: string) returns (tr: seq<State>)
    requires dto.startDate < dto.endDate
    requires patch.startDate.GetOr(dto.startDate) < patch.endDate.GetOr(dto.endDate) && patch.version == Some(0)
    ensures Run(refuses, tr, CreateThenUpdate(id, dto, patch, who))
    ensures UpdateCheck(tr[1].docs, id, patch, 0) == Ok(NewDocument(dto, who))
    ensures tr[3].docs == map[id := if refuses then NewDocument(dto, who) else AtomicPatch(NewDocument(dto, who), patch, who)]
  {
    var steps := CreateThenUpdate(id, dto, patch, who);
    var s0 := State(map[], map[], [], {});
    var s1 := Apply(refuses, s0, steps[0]);
    assert s1.docs == map[id := NewDocument(dto, who)];
    var s2 := Apply(refuses, s1, steps[1]);
    var s3 := Apply(refuses, s2, steps[2]);
    tr := [s0, s1, s2, s3];
  }

  // ---------------------------------------------------------------- steps and service

  /**
   Beginning an update and committing it at once is the service's `update`: it can begin exactly
   when the service's checks pass, and then leaves what the service leaves, logged iff it
   succeeds.
   */
  lemma UpdateStepsAreUpdate(refuses: bool, s: State, op: nat, id: string, patch: Patch, who: string, version: int)
    requires op !in s.updates
    ensures var begin, outcome := BeginUpdate(op, id, patch, who, version), UpdateOutcome(s.docs, id, patch, who, version, refuses);
            && (!Enabled(s, begin) ==> outcome == (Err(UpdateCheck(s.docs, id, patch, version).error), s.docs))
            && (Enabled(s, begin) ==>
                  var s1 := Apply(refuses, s, begin);
                  && Enabled(s1, CommitUpdate(op))
                  && Apply(refuses, s1, CommitUpdate(op))
                     == s.(docs := outcome.1, log := s.log + if outcome.0.Ok? then [Updated(id, version)] else []))
  {
    var begin := BeginUpdate(op, id, patch, who, version);
    if Enabled(s, begin) {
      var s1 := Apply(refuses, s, begin);
      assert s1.updates - {op} == s.updates;
    }
  }

  /** What the other steps leave of the document they name, field by field, and that they touch no other. */
  lemma OtherStepsMean(refuses: bool, s: State, step: Step)
    requires Enabled(s, step) && (step.CreateEvent? || step.RemoveEvent? || step.RestoreEvent? || step.PurgeEvent?)
    ensures var s', id := Apply(refuses, s, step), step.id;
            && s'.updates == s.updates
            && (forall k | k != id :: (k in s'.docs <==> k in s.docs) && (k in s.docs ==> s'.docs[k] == s.docs[k]))
            && (id in s'.docs <==> !step.PurgeEvent?)
            && (step.CreateEvent? ==>
                  && s'.docs[id].name == step.dto.name && s'.docs[id].description == step.dto.description
                  && s'.docs[id].kind == step.dto.kind && s'.docs[id].condition == step.dto.condition
                  && s'.docs[id].startDate == step.dto.startDate && s'.docs[id].endDate == step.dto.endDate
                  && s'.docs[id].createdBy == step.who && s'.docs[id].version == 0 && s'.docs[id].deletedAt.None?)
            && (step.RemoveEvent? ==>
                  && s'.docs[id].deletedAt == Some(step.now) && s'.docs[id].deletedBy == Some(step.who)
                  && s'.docs[id] == s.docs[id].(deletedAt := s'.docs[id].deletedAt, deletedBy := s'.docs[id].deletedBy,
                                                version := s.docs[id].version + 1))
            && (step.RestoreEvent? ==>
                  && s'.docs[id].updatedBy == Some(step.who)
                  && s'.docs[id] == s.docs[id].(deletedAt := None, deletedBy := None, updatedBy := s'.docs[id].updatedBy,
                                                version := s.docs[id].version + 1))
  {}
}
