/** Rows of `feed.videos_projection`, identifiers, timestamps and the column mappers. */
module Projection {
  import opened Prelude

  datatype Uuid = Uuid(value: nat)

  /**
   * The text of an identifier. Several texts parse to one UUID (upper case, braces, the URN form),
   * but only one is its canonical text (section 4 of RFC 9562), the one `String()` prints.
   */
  datatype IdText =
    | Canonical(uuid: Uuid)
    | OtherForm(uuid: Uuid, form: nat)
    | Unparsable(text: string)

  const EMPTY_ID := Unparsable("")

  function ParseUuid(text: IdText): Option<Uuid> {
    match text
    case Canonical(u) => Some(u)
    case OtherForm(u, _) => Some(u)
    case Unparsable(_) => None
  }

  /** An instant, counted from Go's zero `time.Time`. */
  type Time = int

  const ZERO_TIME: Time := 0

  /** A timestamp field on the wire: the empty string, text that does not parse, or an instant. */
  datatype TimeText = Absent | Malformed | At(time: Time)

  /** The empty string parses to the zero time; so does the text of year one. */
  function ParseRFC3339(text: TimeText): Result<Time, ()> {
    match text
    case Absent => Ok(ZERO_TIME)
    case Malformed => Err(())
    case At(t) => Ok(t)
  }

  /** The projection of one video as the service sees it. */
  datatype Row = Row(
    title: string,
    description: Option<string>,
    durationMicros: Option<int>,
    thumbnailUrl: Option<string>,
    hlsMasterPlaylist: Option<string>,
    status: Option<string>,
    visibilityStatus: Option<string>,
    publishedAt: Option<Time>,
    version: int,
    updatedAt: Time)

  type Table = map<Uuid, Row>

  function Lookup(t: Table, id: Uuid): Option<Row> {
    if id in t then Some(t[id]) else None
  }

  /** A nullable column: the payload means something only when `valid`. */
  datatype Nullable<T> = Nullable(value: T, valid: bool)

  function ToPg<T>(value: Option<T>, zero: T): Nullable<T> {
    if value.None? then Nullable(zero, false) else Nullable(value.value, true)
  }

  function FromPg<T>(column: Nullable<T>): Option<T> {
    if column.valid then Some(column.value) else None
  }

  /** The columns as the database holds them. */
  datatype PgRow = PgRow(
    title: string,
    description: Nullable<string>,
    durationMicros: Nullable<int>,
    thumbnailUrl: Nullable<string>,
    hlsMasterPlaylist: Nullable<string>,
    status: Nullable<string>,
    visibilityStatus: Nullable<string>,
    publishedAt: Nullable<Time>,
    version: int,
    updatedAt: Time)

  function RowFromPg(r: PgRow): Row {
    Row(r.title, FromPg(r.description), FromPg(r.durationMicros), FromPg(r.thumbnailUrl),
        FromPg(r.hlsMasterPlaylist), FromPg(r.status), FromPg(r.visibilityStatus),
        FromPg(r.publishedAt), r.version, r.updatedAt)
  }

  const READY := "ready"

  predicate IsReady(row: Row) {
    row.status == Some(READY)
  }

  /** The ids `where status = 'ready'` selects. */
  function ReadyIds(t: Table): set<Uuid> {
    set id | id in t && IsReady(t[id])
  }

  /** The ready rows are those whose status is stored as "ready". */
  lemma ReadyIsTheWord(t: Table, id: Uuid)
    ensures id in ReadyIds(t) <==> id in t && t[id].status == Some("ready")
  {
  }
}
