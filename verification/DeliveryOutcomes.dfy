/**
 * What the handler answers: which video and which time a delivery comes to, exactly when it succeeds,
 * and exactly which error it returns otherwise.
 */
module DeliveryOutcomes {
  import opened Prelude
  import opened Projection
  import opened CatalogEvents
  import opened DeliveryRuns
  import opened VersionGuard

  /** The event's own id decides; only an empty one gives way to the inbox row's. */
  lemma TargetIs(d: Delivery, u: Uuid)
    ensures var own, inbox := d.event.aggregateId, d.inboxId;
            Target(d) == Some(u)
            <==> own == Canonical(u) || (own.OtherForm? && own.uuid == u)
                 || (own == Unparsable("") && inbox.Some?
                     && (inbox.value == Canonical(u) || (inbox.value.OtherForm? && inbox.value.uuid == u)))
  {
  }

  /** An event without a time, or with the zero time, takes the clock; a malformed time is an error. */
  lemma TimeIs(d: Delivery, at: Time)
    ensures EventTime(d) == Ok(at)
            <==> (d.event.occurredAt == At(at) && at != 0)
                 || (at == d.clock && (d.event.occurredAt.Absent? || d.event.occurredAt == At(0)))
    ensures EventTime(d).Err? <==> d.event.occurredAt.Malformed?
  {
  }

  /** The payload's own version counts when it is positive and the payload is that of the event's kind. */
  lemma VersionIs(d: Delivery)
    ensures var e := d.event;
            var own := (e.kind.VideoCreated? && e.payload.Created?) || (e.kind.VideoUpdated? && e.payload.Updated?)
                       || (e.kind.VideoMediaReady? && e.payload.MediaReady?)
                       || (e.kind.VideoVisibilityChanged? && e.payload.VisibilityChanged?)
                       || (e.kind.VideoDeleted? && e.payload.Deleted?);
            Version(d) == if own && e.payload.version > 0 then e.payload.version else e.version
  {
  }

  /** The payload of the event's kind is missing; Deleted needs none. */
  predicate LacksPayload(e: Event) {
    match e.kind
    case VideoCreated => !e.payload.Created?
    case VideoUpdated => !e.payload.Updated?
    case VideoMediaReady => !e.payload.MediaReady?
    case VideoVisibilityChanged => !e.payload.VisibilityChanged?
    case VideoDeleted => false
    case Unsupported => false
  }

  /** The handler comes to loading the current row, which Created does not. */
  predicate NeedsLoad(d: Delivery) {
    && Admitted(d).Some? && !LacksPayload(d.event)
    && !d.event.kind.Unsupported? && !d.event.kind.VideoCreated?
  }

  /** The guard lets the event through on the stored row, so that it comes to a write. */
  predicate NeedsUpsert(t: Table, d: Delivery) {
    Admitted(d).Some? && Passes(VersionOf(Lookup(t, Admitted(d).value)), d.(db := Up))
  }

  /**
   * A delivery succeeds exactly when its id and time are readable and its payload is there, and no
   * call that it comes to fails. Each error has its own exact condition.
   */
  lemma StatusIs(t: Table, d: Delivery)
    ensures var status := Step(t, d).status;
            && (status.Ok? <==>
                  && Admitted(d).Some? && !LacksPayload(d.event)
                  && (NeedsLoad(d) ==> !d.db.LoadFails?)
                  && (NeedsUpsert(t, d) ==> !d.db.UpsertFails?))
            && (status == Err(BadAggregateId) <==> Target(d).None?)
            && (status == Err(BadOccurredAt) <==> Target(d).Some? && d.event.occurredAt.Malformed?)
            && (status == Err(PayloadMissing) <==> Admitted(d).Some? && LacksPayload(d.event))
            && (status == Err(LoadFailed) <==> NeedsLoad(d) && d.db.LoadFails?)
            && (status == Err(UpsertFailed) <==> NeedsUpsert(t, d) && d.db.UpsertFails?)
            && status != Err(NilEvent)
  {
  }

  /** An error leaves the table as it was, and so does a success that wrote nothing. */
  lemma OnlyWritesChangeTheTable(t: Table, d: Delivery)
    requires Step(t, d).status.Err? || !NeedsUpsert(t, d)
    ensures Step(t, d).table == t
  {
    if Admitted(d).Some? {
      StepIsGuardedApply(Lookup(t, Admitted(d).value), d);
      forall id ensures Lookup(Step(t, d).table, id) == Lookup(t, id) {
        StepIsLocal(t, d, id);
      }
      SameRowsSameTable(Step(t, d).table, t);
    }
  }

  /**
   * Nothing to do is no error: a stale event, an event for a video without a row and an event of an
   * unsupported kind succeed, whatever becomes of writes, as long as the load they need does.
   */
  lemma NothingToDoSucceeds(t: Table, d: Delivery)
    requires Admitted(d).Some? && !LacksPayload(d.event) && !d.event.kind.VideoCreated?
    requires NeedsLoad(d) ==> !d.db.LoadFails?
    requires var row := Lookup(t, Admitted(d).value);
             d.event.kind.Unsupported? || row.None? || (Version(d) != 0 && Version(d) <= row.value.version)
    ensures Step(t, d) == StepResult(t, Ok(()))
  {
    StatusIs(t, d);
    OnlyWritesChangeTheTable(t, d);
  }
}
