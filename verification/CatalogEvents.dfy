/**
 * Catalog events and what one delivery of an event does to the projection table. `Step` is the
 * specification that the imperative handler in `CatalogInbox` is proved against.
 */
module CatalogEvents {
  import opened Prelude
  import opened Projection

  datatype Kind =
    | VideoCreated | VideoUpdated | VideoMediaReady | VideoVisibilityChanged | VideoDeleted
    | Unsupported

  /** The `oneof` payload. A field read through its getter (absent reads as empty) is a plain string. */
  datatype Payload =
    | NoPayload
    | Created(title: string, description: Option<string>, durationMicros: Option<int>,
              status: string, publishedAt: Option<TimeText>, version: int)
    | Updated(newTitle: Option<string>, description: Option<string>, durationMicros: Option<int>,
              thumbnailUrl: Option<string>, hlsMasterPlaylist: Option<string>,
              newStatus: Option<string>, visibilityStatus: Option<string>,
              publishedAt: Option<TimeText>, version: int)
    | MediaReady(durationMicros: Option<int>, thumbnailUrl: Option<string>,
                 hlsMasterPlaylist: Option<string>, status: string, version: int)
    | VisibilityChanged(status: string, visibilityStatus: Option<string>,
                        publishedAt: Option<TimeText>, version: int)
    | Deleted(version: int)

  datatype Event = Event(kind: Kind, aggregateId: IdText, occurredAt: TimeText, version: int,
                         payload: Payload)

  /** Which repository call of a handler fails, if any; a failing call rolls the transaction back. */
  datatype Db = Up | LoadFails | UpsertFails

  /** One delivery: the event, the inbox row's aggregate id, the clock at that moment, the database. */
  datatype Delivery = Delivery(event: Event, inboxId: Option<IdText>, clock: Time, db: Db)

  datatype HandleError =
    NilEvent | BadAggregateId | BadOccurredAt | PayloadMissing | LoadFailed | UpsertFailed

  function EventVersion(eventVersion: int, payloadVersion: int): int {
    if payloadVersion > 0 then payloadVersion else eventVersion
  }

  /** Version 0 passes the guard whatever is stored. */
  predicate ShouldApply(newVersion: int, currentVersion: int) {
    newVersion == 0 || newVersion > currentVersion
  }

  const UNTITLED := "(untitled)"

  function DefaultTitle(title: string): (r: string)
    ensures (title != "" ==> r == title) && (title == "" ==> r == "(untitled)")
  {
    if title == "" then UNTITLED else title
  }

  function OptionalString(value: string): (r: Option<string>)
    ensures r != Some("") && Coalesce(r, Some("")) == Some(value)
  {
    if value == "" then None else Some(value)
  }

  /** A time only if the text holds one other than the zero time; malformed text is as good as none. */
  function OptionalTime(text: Option<TimeText>): (r: Option<Time>)
    ensures forall t :: r == Some(t) <==> text == Some(At(t)) && t != ZERO_TIME
  {
    if text.None? then None
    else match ParseRFC3339(text.value)
      case Err(_) => None
      case Ok(t) => if t == ZERO_TIME then None else Some(t)
  }

  function Coalesce<T>(newVal: Option<T>, current: Option<T>): Option<T> {
    if newVal.Some? then newVal else current
  }

  /** A given empty string clears the field; an absent one keeps it. */
  function CoalesceStringValue(newVal: Option<string>, current: Option<string>): Option<string> {
    if newVal.Some? then OptionalString(newVal.value) else current
  }

  function CoalesceTime(newVal: Option<TimeText>, current: Option<Time>): Option<Time> {
    Coalesce(OptionalTime(newVal), current)
  }

  predicate PayloadMatches(e: Event) {
    match e.kind
    case VideoCreated => e.payload.Created?
    case VideoUpdated => e.payload.Updated?
    case VideoMediaReady => e.payload.MediaReady?
    case VideoVisibilityChanged => e.payload.VisibilityChanged?
    case VideoDeleted => e.payload.Deleted?
    case Unsupported => false
  }

  /** Every kind but Deleted needs its own payload. */
  predicate WellFormed(e: Event) {
    e.kind.VideoDeleted? || PayloadMatches(e)
  }

  /** A positive version of the event's own payload takes precedence over the envelope's. */
  function EffectiveVersion(e: Event): (v: int)
    ensures v != e.version ==> PayloadMatches(e) && v == e.payload.version > 0
    ensures PayloadMatches(e) && e.payload.version > 0 ==> v == e.payload.version
  {
    EventVersion(e.version, if PayloadMatches(e) then e.payload.version else 0)
  }

  function CreatedRow(e: Event, time: Time): Row
    requires WellFormed(e) && e.kind.VideoCreated?
  {
    var p := e.payload;
    Row(DefaultTitle(p.title), p.description, p.durationMicros, None, None, OptionalString(p.status),
        None, OptionalTime(p.publishedAt), EffectiveVersion(e), time)
  }

  /** The field-by-field merge of a non-Created event, with no version check. */
  function Merge(e: Event, time: Time, row: Row): Row
    requires WellFormed(e) && !e.kind.VideoCreated?
  {
    var p := e.payload;
    var base := row.(title := DefaultTitle(row.title), version := EffectiveVersion(e), updatedAt := time);
    match e.kind
    case VideoUpdated =>
      base.(title := DefaultTitle(if p.newTitle.Some? then p.newTitle.value else row.title),
            description := Coalesce(p.description, row.description),
            durationMicros := Coalesce(p.durationMicros, row.durationMicros),
            thumbnailUrl := Coalesce(p.thumbnailUrl, row.thumbnailUrl),
            hlsMasterPlaylist := Coalesce(p.hlsMasterPlaylist, row.hlsMasterPlaylist),
            status := CoalesceStringValue(p.newStatus, row.status),
            visibilityStatus := CoalesceStringValue(p.visibilityStatus, row.visibilityStatus),
            publishedAt := CoalesceTime(p.publishedAt, row.publishedAt))
    case VideoMediaReady =>
      base.(durationMicros := Coalesce(p.durationMicros, row.durationMicros),
            thumbnailUrl := Coalesce(p.thumbnailUrl, row.thumbnailUrl),
            hlsMasterPlaylist := Coalesce(p.hlsMasterPlaylist, row.hlsMasterPlaylist),
            status := Coalesce(OptionalString(p.status), row.status))
    case VideoVisibilityChanged =>
      base.(status := Coalesce(OptionalString(p.status), row.status),
            visibilityStatus := CoalesceStringValue(p.visibilityStatus, row.visibilityStatus),
            publishedAt := CoalesceTime(p.publishedAt, row.publishedAt))
    case VideoDeleted =>
      base.(status := Some("deleted"))
  }

  /** What a handler decides once it has loaded the current row. */
  datatype Intent = Refuse(error: HandleError) | Skip | Write(row: Row)

  function Plan(e: Event, time: Time, current: Option<Row>): Intent {
    if e.kind.Unsupported? then Skip
    else if !WellFormed(e) then Refuse(PayloadMissing)
    else if e.kind.VideoCreated? then Write(CreatedRow(e, time))
    else if current.None? || !ShouldApply(EffectiveVersion(e), current.value.version) then Skip
    else Write(Merge(e, time, current.value))
  }

  /** Created never reads the row it overwrites. */
  predicate Loads(e: Event) {
    WellFormed(e) && !e.kind.VideoCreated?
  }

  /** Outcome for one row: what is stored afterwards and what the handler returns. */
  datatype Settled = Settled(row: Option<Row>, status: Result<(), HandleError>)

  /** Decide on `loaded`, then write over whatever is stored now. */
  function Settle(e: Event, time: Time, db: Db, loaded: Option<Row>, stored: Option<Row>): Settled {
    if Loads(e) && db.LoadFails? then Settled(stored, Err(LoadFailed))
    else match Plan(e, time, loaded)
      case Refuse(error) => Settled(stored, Err(error))
      case Skip => Settled(stored, Ok(()))
      case Write(row) =>
        if db.UpsertFails? then Settled(stored, Err(UpsertFailed)) else Settled(Some(row), Ok(()))
  }

  function AggregateText(d: Delivery): IdText {
    if d.event.aggregateId == EMPTY_ID && d.inboxId.Some? then d.inboxId.value else d.event.aggregateId
  }

  /** The video a delivery is about; None when the id does not parse. */
  function Target(d: Delivery): Option<Uuid> {
    ParseUuid(AggregateText(d))
  }

  /** The time written to the row: the event's own, or the clock when it has none. */
  function EventTime(d: Delivery): Result<Time, ()> {
    match ParseRFC3339(d.event.occurredAt)
    case Err(_) => Err(())
    case Ok(t) => Ok(if t == ZERO_TIME then d.clock else t)
  }

  datatype StepResult = StepResult(table: Table, status: Result<(), HandleError>)

  function Store(t: Table, id: Uuid, s: Settled): StepResult {
    StepResult(if s.row.Some? then t[id := s.row.value] else t, s.status)
  }

  /** One delivery handled atomically. */
  function Step(t: Table, d: Delivery): StepResult {
    if Target(d).None? then StepResult(t, Err(BadAggregateId))
    else if EventTime(d).Err? then StepResult(t, Err(BadOccurredAt))
    else
      var id := Target(d).value;
      Store(t, id, Settle(d.event, EventTime(d).value, d.db, Lookup(t, id), Lookup(t, id)))
  }
}
