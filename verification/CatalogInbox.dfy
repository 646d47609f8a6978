/** The Catalog inbox event handler, method by method, over the shared projection table. */
module CatalogInbox {
  import opened Prelude
  import opened Projection
  import opened CatalogEvents
  import opened ProjectionRepository

  class EventHandler {
    const projections: FeedVideoProjectionRepository

    constructor (repo: FeedVideoProjectionRepository)
      ensures projections == repo
    {
      projections := repo;
    }

    /** What a handler leaves in the table and returns, when it loads and writes row `id`. */
    twostate predicate Settles(e: Event, id: Uuid, time: Time, db: Db, new r: Result<(), HandleError>)
      reads this, projections
    {
      var before := old(projections.Contents());
      StepResult(projections.Contents(), r)
      == Store(before, id, Settle(e, time, db, Lookup(before, id), Lookup(before, id)))
    }

    method LoadCurrent(id: Uuid, db: Db) returns (r: Result<Option<Row>, HandleError>)
      ensures r == if db.LoadFails? then Err(LoadFailed) else Ok(Lookup(projections.Contents(), id))
    {
      var record := projections.Get(id, !db.LoadFails?);
      match record
      case Ok(found) => return Ok(Some(found.row));
      case Err(NoRows) => return Ok(None);
      case Err(QueryFailed) => return Err(LoadFailed);
    }

    method Put(input: UpsertInput, db: Db) returns (r: Result<(), HandleError>)
      requires input.updatedAt.Some?
      modifies projections
      ensures r == if db.UpsertFails? then Err(UpsertFailed) else Ok(())
      ensures projections.Contents()
              == if db.UpsertFails? then old(projections.Contents())
                 else old(projections.Contents())[input.videoId := RowOf(input, input.updatedAt.value)]
    {
      var done := projections.Upsert(input, input.updatedAt.value, !db.UpsertFails?);
      r := if done.Ok? then Ok(()) else Err(UpsertFailed);
    }

    method HandleCreated(evt: Event, videoId: Uuid, occurredAt: Time, db: Db) returns (r: Result<(), HandleError>)
      requires evt.kind.VideoCreated?
      modifies projections
      ensures Settles(evt, videoId, occurredAt, db, r)
    {
      if !evt.payload.Created? {
        return Err(PayloadMissing);
      }
      var payload := evt.payload;
      var input := UpsertInput(
        videoId,
        DefaultTitle(payload.title),
        payload.description,
        payload.durationMicros,
        None,
        None,
        OptionalString(payload.status),
        None,
        OptionalTime(payload.publishedAt),
        EventVersion(evt.version, payload.version),
        Some(occurredAt));
      r := Put(input, db);
    }

    method HandleUpdated(evt: Event, videoId: Uuid, occurredAt: Time, db: Db) returns (r: Result<(), HandleError>)
      requires evt.kind.VideoUpdated?
      modifies projections
      ensures Settles(evt, videoId, occurredAt, db, r)
    {
      if !evt.payload.Updated? {
        return Err(PayloadMissing);
      }
      var payload := evt.payload;
      var loaded := LoadCurrent(videoId, db);
      if loaded.Err? {
        return Err(loaded.error);
      }
      if loaded.value.None? {
        return Ok(());
      }
      var current := loaded.value.value;
      var version := EventVersion(evt.version, payload.version);
      if !ShouldApply(version, current.version) {
        return Ok(());
      }
      var title := current.title;
      if payload.newTitle.Some? {
        title := payload.newTitle.value;
      }
      var input := UpsertInput(
        videoId,
        DefaultTitle(title),
        Coalesce(payload.description, current.description),
        Coalesce(payload.durationMicros, current.durationMicros),
        Coalesce(payload.thumbnailUrl, current.thumbnailUrl),
        Coalesce(payload.hlsMasterPlaylist, current.hlsMasterPlaylist),
        CoalesceStringValue(payload.newStatus, current.status),
        CoalesceStringValue(payload.visibilityStatus, current.visibilityStatus),
        CoalesceTime(payload.publishedAt, current.publishedAt),
        version,
        Some(occurredAt));
      r := Put(input, db);
    }

    method HandleMediaReady(evt: Event, videoId: Uuid, occurredAt: Time, db: Db) returns (r: Result<(), HandleError>)
      requires evt.kind.VideoMediaReady?
      modifies projections
      ensures Settles(evt, videoId, occurredAt, db, r)
    {
      if !evt.payload.MediaReady? {
        return Err(PayloadMissing);
      }
      var payload := evt.payload;
      var loaded := LoadCurrent(videoId, db);
      if loaded.Err? {
        return Err(loaded.error);
      }
      if loaded.value.None? {
        return Ok(());
      }
      var current := loaded.value.value;
      var version := EventVersion(evt.version, payload.version);
      if !ShouldApply(version, current.version) {
        return Ok(());
      }
      var status := OptionalString(payload.status);
      var input := UpsertInput(
        videoId,
        DefaultTitle(current.title),
        current.description,
        Coalesce(payload.durationMicros, current.durationMicros),
        Coalesce(payload.thumbnailUrl, current.thumbnailUrl),
        Coalesce(payload.hlsMasterPlaylist, current.hlsMasterPlaylist),
        CoalesceStringValue(status, current.status),
        current.visibilityStatus,
        current.publishedAt,
        version,
        Some(occurredAt));
      r := Put(input, db);
    }

    method HandleVisibilityChanged(evt: Event, videoId: Uuid, occurredAt: Time, db: Db)
      returns (r: Result<(), HandleError>)
      requires evt.kind.VideoVisibilityChanged?
      modifies projections
      ensures Settles(evt, videoId, occurredAt, db, r)
    {
      if !evt.payload.VisibilityChanged? {
        return Err(PayloadMissing);
      }
      var payload := evt.payload;
      var loaded := LoadCurrent(videoId, db);
      if loaded.Err? {
        return Err(loaded.error);
      }
      if loaded.value.None? {
        return Ok(());
      }
      var current := loaded.value.value;
      var version := EventVersion(evt.version, payload.version);
      if !ShouldApply(version, current.version) {
        return Ok(());
      }
      var status := OptionalString(payload.status);
      var input := UpsertInput(
        videoId,
        DefaultTitle(current.title),
        current.description,
        current.durationMicros,
        current.thumbnailUrl,
        current.hlsMasterPlaylist,
        CoalesceStringValue(status, current.status),
        CoalesceStringValue(payload.visibilityStatus, current.visibilityStatus),
        CoalesceTime(payload.publishedAt, current.publishedAt),
        version,
        Some(occurredAt));
      r := Put(input, db);
    }

    method HandleDeleted(evt: Event, videoId: Uuid, occurredAt: Time, db: Db) returns (r: Result<(), HandleError>)
      requires evt.kind.VideoDeleted?
      modifies projections
      ensures Settles(evt, videoId, occurredAt, db, r)
    {
      var loaded := LoadCurrent(videoId, db);
      if loaded.Err? {
        return Err(loaded.error);
      }
      if loaded.value.None? {
        return Ok(());
      }
      var current := loaded.value.value;
      var version := evt.version;
      if evt.payload.Deleted? && evt.payload.version > 0 {
        version := evt.payload.version;
      }
      if !ShouldApply(version, current.version) {
        return Ok(());
      }
      var input := UpsertInput(
        videoId,
        DefaultTitle(current.title),
        current.description,
        current.durationMicros,
        current.thumbnailUrl,
        current.hlsMasterPlaylist,
        Some("deleted"),
        current.visibilityStatus,
        current.publishedAt,
        version,
        Some(occurredAt));
      r := Put(input, db);
    }

    /** Resolve the video and the time, then dispatch on the kind of event. */
    method Handle(evt: Option<Event>, inboxId: Option<IdText>, clock: Time, db: Db) returns (r: Result<(), HandleError>)
      modifies projections
      ensures evt.None? ==> r == Err(NilEvent) && projections.Contents() == old(projections.Contents())
      ensures evt.Some? ==>
        StepResult(projections.Contents(), r)
        == Step(old(projections.Contents()), Delivery(evt.value, inboxId, clock, db))
    {
      if evt.None? {
        return Err(NilEvent);
      }
      var e := evt.value;
      var aggregateId := e.aggregateId;
      if aggregateId == EMPTY_ID && inboxId.Some? {
        aggregateId := inboxId.value;
      }
      var videoId := ParseUuid(aggregateId);
      if videoId.None? {
        return Err(BadAggregateId);
      }
      var parsed := ParseRFC3339(e.occurredAt);
      if parsed.Err? {
        return Err(BadOccurredAt);
      }
      var occurredAt := parsed.value;
      if occurredAt == ZERO_TIME {
        occurredAt := clock;
      }
      match e.kind
      case VideoCreated => r := HandleCreated(e, videoId.value, occurredAt, db);
      case VideoUpdated => r := HandleUpdated(e, videoId.value, occurredAt, db);
      case VideoMediaReady => r := HandleMediaReady(e, videoId.value, occurredAt, db);
      case VideoVisibilityChanged => r := HandleVisibilityChanged(e, videoId.value, occurredAt, db);
      case VideoDeleted => r := HandleDeleted(e, videoId.value, occurredAt, db);
      case Unsupported => r := Ok(());
    }
  }
}
