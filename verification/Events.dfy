/**
 game-event-server/src/modules/event/event.service.ts: event documents with soft deletion and
 an optimistic version. Dates are milliseconds; `now` is the clock of the call.
 */
module Events {
  import opened Prelude

  datatype EventType =
    | LOGIN | FRIEND_INVITATION | LEVEL_UP | TIME_PERIOD | ACHIEVEMENT | PURCHASE | DAILY_MISSION | ITEM_COLLECTION

  datatype EventStatus = ACTIVE | INACTIVE

  datatype Condition = Condition(kind: string, value: int)

  datatype Event = Event(
    name: string,
    description: string,
    kind: EventType,
    condition: Condition,
    startDate: int,
    endDate: int,
    status: EventStatus,
    createdBy: string,
    updatedBy: Option<string>,
    version: int,
    deletedAt: Option<int>,
    deletedBy: Option<string>)

  datatype NewEvent = NewEvent(
    name: string,
    description: string,
    kind: EventType,
    condition: Condition,
    startDate: int,
    endDate: int,
    status: Option<EventStatus>)

  /** An update: fields left out stay as they are. `version` is the one in the request body. */
  datatype Patch = Patch(
    name: Option<string>,
    description: Option<string>,
    kind: Option<EventType>,
    condition: Option<Condition>,
    startDate: Option<int>,
    endDate: Option<int>,
    status: Option<EventStatus>,
    version: Option<int>)

  datatype EventError = NotFound | BadDates | Conflict | StoreRejects

  type Docs = map<string, Event>

  // ---------------------------------------------------------------- single operations

  function NewDocument(dto: NewEvent, createdBy: string): Event {
    Event(dto.name, dto.description, dto.kind, dto.condition, dto.startDate, dto.endDate,
          dto.status.GetOr(INACTIVE), createdBy, None, 0, None, None)
  }

  function FindOne(docs: Docs, id: string, includeDeleted: bool): Option<Event> {
    if id in docs && (includeDeleted || docs[id].deletedAt.None?) then Some(docs[id]) else None
  }

  /** The dates the update is going to write, from the document it has READ. */
  function PatchedStart(patch: Patch, seen: Event): int {
    patch.startDate.GetOr(seen.startDate)
  }

  function PatchedEnd(patch: Patch, seen: Event): int {
    patch.endDate.GetOr(seen.endDate)
  }

  /** Everything `update` checks before it writes. */
  function UpdateCheck(docs: Docs, id: string, patch: Patch, version: int): Result<Event, EventError> {
    match FindOne(docs, id, false)
    case None => Err(NotFound)
    case Some(event) =>
      if PatchedStart(patch, event) >= PatchedEnd(patch, event) then Err(BadDates)
      else if event.version != version then Err(Conflict)
      else Ok(event)
  }

  /** What the conditional write puts in place of `doc`. */
  function Written(doc: Event, patch: Patch, startDate: int, endDate: int, updatedBy: string): Event {
    doc.(name := patch.name.GetOr(doc.name),
         description := patch.description.GetOr(doc.description),
         kind := patch.kind.GetOr(doc.kind),
         condition := patch.condition.GetOr(doc.condition),
         status := patch.status.GetOr(doc.status),
         startDate := startDate,
         endDate := endDate,
         updatedBy := Some(updatedBy),
         version := doc.version + 1)
  }

  /**
   `findOneAndUpdate` on (id, version, not deleted). The request body is spread into the
   update, so a `version` in it stands beside `$inc` on the same field; `refuses` says that the
   database rejects such an update (otherwise the increment alone counts).
   */
  function CompareAndSet(docs: Docs, id: string, version: int, patch: Patch, startDate: int, endDate: int, updatedBy: string, refuses: bool): (r: Result<Docs, EventError>)
  {
    if refuses && patch.version.Some? then Err(StoreRejects)
    else if id in docs && docs[id].version == version && docs[id].deletedAt.None?
    then Ok(docs[id := Written(docs[id], patch, startDate, endDate, updatedBy)])
    else Err(Conflict)
  }

  /** What `update` answers and leaves when nothing comes between its read and its write. */
  function UpdateOutcome(docs: Docs, id: string, patch: Patch, updatedBy: string, version: int, refuses: bool): (Result<Event, EventError>, Docs) {
    match UpdateCheck(docs, id, patch, version)
    case Err(e) => (Err(e), docs)
    case Ok(event) =>
      if refuses && patch.version.Some? then (Err(StoreRejects), docs)
      else (Ok(AtomicPatch(event, patch, updatedBy)), docs[id := AtomicPatch(event, patch, updatedBy)])
  }

  /** Missing or deleted; dates that would not be in order; another version; a refused update; in this order. */
  predicate UpdateErrors(docs: Docs, id: string, patch: Patch, version: int, refuses: bool, r: Result<Event, EventError>) {
    var there := id in docs && docs[id].deletedAt.None?;
    var badDates := there && (
        || (patch.startDate.Some? && patch.endDate.Some? && patch.startDate.value >= patch.endDate.value)
        || (patch.startDate.Some? && patch.endDate.None? && patch.startDate.value >= docs[id].endDate)
        || (patch.startDate.None? && patch.endDate.Some? && docs[id].startDate >= patch.endDate.value)
        || (patch.startDate.None? && patch.endDate.None? && docs[id].startDate >= docs[id].endDate));
    && (r == Err(NotFound) <==> !there)
    && (r == Err(BadDates) <==> badDates)
    && (r == Err(Conflict) <==> there && !badDates && docs[id].version != version)
    && (r == Err(StoreRejects) <==> there && !badDates && docs[id].version == version && refuses && patch.version.Some?)
  }

  /** When the conditional write goes through. */
  lemma CompareAndSetMeaning(docs: Docs, id: string, version: int, patch: Patch, startDate: int, endDate: int, who: string, refuses: bool)
    ensures var r := CompareAndSet(docs, id, version, patch, startDate, endDate, who, refuses);
            && (r == Err(StoreRejects) <==> refuses && patch.version.Some?)
            && (r.Ok? <==> && (refuses ==> patch.version.None?)
                           && id in docs && docs[id].version == version && docs[id].deletedAt.None?)
            && (r.Ok? ==> id in r.value && r.value == docs[id := r.value[id]]
                          && r.value[id].startDate == startDate && r.value[id].endDate == endDate)
  {}

  function Removed(doc: Event, who: string, now: int): Event {
    doc.(deletedAt := Some(now), deletedBy := Some(who), version := doc.version + 1)
  }

  function Restored(doc: Event, who: string): Event {
    doc.(deletedAt := None, deletedBy := None, updatedBy := Some(who), version := doc.version + 1)
  }

  /** The patch applied to one document, every missing field keeping that document's value. */
  function AtomicPatch(doc: Event, patch: Patch, who: string): Event {
    Written(doc, patch, PatchedStart(patch, doc), PatchedEnd(patch, doc), who)
  }

  /** `x` is what the patch says if it says anything, and otherwise as it was. */
  predicate Becomes<T(==)>(x: T, said: Option<T>, was: T) {
    (said.Some? ==> x == said.value) && (said.None? ==> x == was)
  }

  /** `after` is `before` with the patch's fields, one version on; all else as it was. */
  predicate IsPatched(before: Event, after: Event, patch: Patch, who: string) {
    && Becomes(after.name, patch.name, before.name)
    && Becomes(after.description, patch.description, before.description)
    && Becomes(after.kind, patch.kind, before.kind)
    && Becomes(after.condition, patch.condition, before.condition)
    && Becomes(after.status, patch.status, before.status)
    && Becomes(after.startDate, patch.startDate, before.startDate)
    && Becomes(after.endDate, patch.endDate, before.endDate)
    && after.createdBy == before.createdBy
    && after.deletedAt == before.deletedAt && after.deletedBy == before.deletedBy
    && after.updatedBy == Some(who)
    && after.version == before.version + 1
  }

  lemma AtomicPatchIsPatched(doc: Event, patch: Patch, who: string)
    ensures forall after :: IsPatched(doc, after, patch, who) <==> after == AtomicPatch(doc, patch, who)
  {}

  /** Restoring undoes removing: only the version and the last editor tell the difference. */
  lemma RestoreUndoesRemove(docs: Docs, id: string, remover: string, restorer: string, now: int)
    requires FindOne(docs, id, false).Some? && docs[id].deletedBy.None?
    ensures var removed := docs[id := Removed(docs[id], remover, now)];
            var restored := removed[id := Restored(removed[id], restorer)];
            && FindOne(removed, id, false).None? && FindOne(removed, id, true).Some?
            && restored == docs[id := docs[id].(version := docs[id].version + 2, updatedBy := Some(restorer))]
  {}

  // ---------------------------------------------------------------- the service

  class EventService {
    var events: Docs
    const refuses: bool

    constructor (refuses: bool)
      ensures events == map[] && this.refuses == refuses
    {
      events := map[];
      this.refuses := refuses;
    }

    /** `id` is the fresh identifier the database draws. */
    method Create(dto: NewEvent, createdBy: string, id: string) returns (r: Result<Event, EventError>)
      requires id !in events
      modifies this
      ensures r.Err? <==> dto.startDate >= dto.endDate
      ensures r.Err? ==> r.error == BadDates && events == old(events)
      ensures r.Ok? ==> events == old(events)[id := r.value]
      ensures r.Ok? ==> r.value == NewDocument(dto, createdBy)
      ensures r.Ok? ==> && r.value.name == dto.name && r.value.description == dto.description
                        && r.value.kind == dto.kind && r.value.condition == dto.condition
                        && r.value.startDate == dto.startDate && r.value.endDate == dto.endDate
                        && r.value.status == (if dto.status.Some? then dto.status.value else INACTIVE)
                        && r.value.createdBy == createdBy && r.value.updatedBy.None? && r.value.version == 0
                        && r.value.deletedAt.None? && r.value.deletedBy.None?
    {
      if dto.startDate >= dto.endDate {
        return Err(BadDates);
      }
      var createdEvent := Event(dto.name, dto.description, dto.kind, dto.condition, dto.startDate, dto.endDate,
                                if dto.status.Some? then dto.status.value else INACTIVE,
                                createdBy, None, 0, None, None);
      events := events[id := createdEvent];
      return Ok(createdEvent);
    }

    method FindById(id: string, includeDeleted: bool) returns (r: Result<Event, EventError>)
      ensures r == match FindOne(events, id, includeDeleted) case Some(e) => Ok(e) case None => Err(NotFound)
      ensures r.Ok? <==> id in events && (events[id].deletedAt.Some? ==> includeDeleted)
      ensures r.Ok? ==> r.value == events[id]
    {
      if id in events && (includeDeleted || events[id].deletedAt.None?) {
        return Ok(events[id]);
      }
      return Err(NotFound);
    }

    /**
     Undisturbed, an update that passes its checks is the atomic patch of the document. Which
     error is reported, in order: missing or deleted, bad dates, stale version, rejected update.
     */
    method Update(id: string, patch: Patch, updatedBy: string, version: int) returns (r: Result<Event, EventError>)
      modifies this
      ensures r.Ok? <==> UpdateCheck(old(events), id, patch, version).Ok? && !(refuses && patch.version.Some?)
      ensures r.Ok? ==> && id in old(events) && old(events)[id].version == version && old(events)[id].deletedAt.None?
                        && r.value == AtomicPatch(old(events)[id], patch, updatedBy)
                        && r.value.startDate < r.value.endDate
                        && events == old(events)[id := r.value]
      ensures r.Err? ==> events == old(events)
      ensures r.Err? ==> r.error == match UpdateCheck(old(events), id, patch, version)
                                    case Err(e) => e
                                    case Ok(_) => StoreRejects
      ensures (r, events) == UpdateOutcome(old(events), id, patch, updatedBy, version, refuses)
      // field by field, and which error is reported when
      ensures r.Ok? ==> IsPatched(old(events)[id], r.value, patch, updatedBy)
      ensures UpdateErrors(old(events), id, patch, version, refuses, r)
    {
      var found := FindById(id, false);
      if found.Err? {
        return Err(NotFound);
      }
      var event := found.value;
      var startDate := event.startDate;
      var endDate := event.endDate;
      if patch.startDate.Some? {
        startDate := patch.startDate.value;
      }
      if patch.endDate.Some? {
        endDate := patch.endDate.value;
      }
      if startDate >= endDate {
        return Err(BadDates);
      }
      if event.version != version {
        return Err(Conflict);
      }
      var updated := CompareAndSet(events, id, version, patch, startDate, endDate, updatedBy, refuses);
      if updated.Err? {
        return Err(updated.error);
      }
      events := updated.value;
      return Ok(events[id]);
    }

    method Remove(id: string, deletedBy: string, now: int) returns (ok: bool)
      modifies this
      ensures ok == FindOne(old(events), id, false).Some?
      ensures ok <==> id in old(events) && old(events)[id].deletedAt.None?
      ensures ok ==> && id in events && events[id].deletedAt == Some(now) && events[id].deletedBy == Some(deletedBy)
                     && events[id].version == old(events)[id].version + 1
                     && events[id] == old(events)[id].(deletedAt := events[id].deletedAt,
                                                       deletedBy := events[id].deletedBy, version := events[id].version)
      ensures events == if ok then old(events)[id := Removed(old(events)[id], deletedBy, now)] else old(events)
    {
      if id !in events || events[id].deletedAt.Some? {
        return false;
      }
      var e := events[id];
      events := events[id := e.(deletedAt := Some(now), deletedBy := Some(deletedBy), version := e.version + 1)];
      return true;
    }

    method PermanentlyRemove(id: string) returns (ok: bool)
      modifies this
      ensures ok == (id in old(events))
      ensures events == old(events) - {id}
    {
      ok := id in events;
      events := events - {id};
    }

    method Restore(id: string, restoredBy: string) returns (r: Result<Event, EventError>)
      modifies this
      ensures r.Ok? <==> id in old(events) && old(events)[id].deletedAt.Some?
      ensures r.Ok? ==> r.value == Restored(old(events)[id], restoredBy) && events == old(events)[id := r.value]
      ensures r.Ok? ==> && r.value.deletedAt.None? && r.value.deletedBy.None? && r.value.updatedBy == Some(restoredBy)
                        && r.value.version == old(events)[id].version + 1
                        && r.value == old(events)[id].(deletedAt := None, deletedBy := None,
                                                       updatedBy := r.value.updatedBy, version := r.value.version)
      ensures r.Err? ==> r.error == NotFound && events == old(events)
    {
      if id !in events || events[id].deletedAt.None? {
        return Err(NotFound);
      }
      var e := events[id];
      events := events[id := e.(deletedAt := None, deletedBy := None, updatedBy := Some(restoredBy), version := e.version + 1)];
      return Ok(events[id]);
    }
  }
}
