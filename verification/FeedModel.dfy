/**
 * Feed values, the mutable string maps they share, and the pure hydration the service's loops are
 * proved against.
 */
module FeedModel {
  import opened Prelude
  import opened Projection

  type Attrs = map<string, string>

  /** A Go map: copies of a struct that holds it share it. */
  class StringMap {
    var entries: Attrs

    constructor ()
      ensures entries == map[]
    {
      entries := map[];
    }
  }

  /** Reading a nil map finds nothing. */
  ghost function Entries(m: StringMap?): Attrs
    reads m
  {
    if m == null then map[] else m.entries
  }

  /** The range loop that copies every entry of `src`, but those to skip, in whatever order. */
  method CopyInto(dst: StringMap, src: StringMap, skip: set<string>)
    requires dst != src
    modifies dst
    ensures dst.entries == old(dst.entries) + (src.entries - skip)
  {
    var left := src.entries.Keys;
    while left != {}
      invariant left <= src.entries.Keys
      invariant dst.entries == old(dst.entries) + (src.entries - skip - left)
      decreases left
    {
      var k :| k in left;
      if k !in skip {
        dst.entries := dst.entries[k := src.entries[k]];
      }
      left := left - {k};
    }
  }

  const REASON_LABEL := "reason_label"

  /** A hydrated card; `A` is the shared map as the service holds it, or its content. */
  datatype FeedItem<+A> = FeedItem(
    videoId: IdText,
    title: string,
    description: string,
    durationMicros: int,
    thumbnailUrl: string,
    hlsMasterPlaylist: string,
    reasonCode: string,
    reasonLabel: string,
    score: real,
    visibilityStatus: string,
    publishedAt: Option<Time>,
    attributes: A)

  type LiveItem = FeedItem<StringMap?>
  type PlainItem = FeedItem<Attrs>

  function WithAttributes<A, B>(item: FeedItem<A>, attributes: B): FeedItem<B> {
    FeedItem(item.videoId, item.title, item.description, item.durationMicros, item.thumbnailUrl,
             item.hlsMasterPlaylist, item.reasonCode, item.reasonLabel, item.score,
             item.visibilityStatus, item.publishedAt, attributes)
  }

  /** What a holder of the item sees now. */
  ghost function View(item: LiveItem): PlainItem
    reads item.attributes
  {
    WithAttributes(item, Entries(item.attributes))
  }

  /** A recommendation as the provider returns it, and its content. */
  datatype Recommendation<+A> = Recommendation(videoId: IdText, reason: string, score: real, metadata: A)

  type LiveRec = Recommendation<StringMap?>
  type Rec = Recommendation<Attrs>

  ghost function RecValue(r: LiveRec): Rec
    reads r.metadata
  {
    Recommendation(r.videoId, r.reason, r.score, Entries(r.metadata))
  }

  /** `vals` is the content of `recs` now. */
  ghost predicate Reads(recs: seq<LiveRec>, vals: seq<Rec>)
    reads set k | 0 <= k < |recs| :: recs[k].metadata
  {
    |recs| == |vals| && forall k :: 0 <= k < |recs| ==> RecValue(recs[k]) == vals[k]
  }

  datatype MissingProjection = MissingProjection(videoId: IdText, reason: string)

  function Deref<T>(value: Option<T>, zero: T): T {
    if value.Some? then value.value else zero
  }

  /** A card straight from the projection, before any recommendation is merged in. */
  function Base(id: Uuid, row: Row): PlainItem {
    FeedItem(Canonical(id), row.title, Deref(row.description, ""), Deref(row.durationMicros, 0),
             Deref(row.thumbnailUrl, ""), Deref(row.hlsMasterPlaylist, ""), "", "", 0.0,
             Deref(row.visibilityStatus, ""), row.publishedAt, map[])
  }

  /** The value of a column, or the zero value for a column without one. */
  predicate Displays<T(==)>(shown: T, column: Option<T>, zero: T) {
    shown == if column.Some? then column.value else zero
  }

  /** Column by column, the card is that of the row. */
  predicate DisplaysRow<A>(item: FeedItem<A>, row: Row) {
    && item.title == row.title
    && Displays(item.description, row.description, "")
    && Displays(item.durationMicros, row.durationMicros, 0)
    && Displays(item.thumbnailUrl, row.thumbnailUrl, "")
    && Displays(item.hlsMasterPlaylist, row.hlsMasterPlaylist, "")
    && Displays(item.visibilityStatus, row.visibilityStatus, "")
    && item.publishedAt == row.publishedAt
  }

  /** Only the canonical text of a stored row finds its card. */
  predicate Hydrates(t: Table, r: Rec) {
    r.videoId.Canonical? && r.videoId.uuid in t
  }

  predicate GivesLabel(r: Rec, id: IdText) {
    r.videoId == id && REASON_LABEL in r.metadata && r.metadata[REASON_LABEL] != ""
  }

  /** The label after `recs`: the latest non-empty one given for `id`. */
  function LabelAfter(recs: seq<Rec>, id: IdText): string {
    if recs == [] then ""
    else
      var last := recs[|recs| - 1];
      if GivesLabel(last, id) then last.metadata[REASON_LABEL] else LabelAfter(recs[..|recs| - 1], id)
  }

  /** The attributes after `recs`: every occurrence of `id` writes over the ones before it. */
  function AttrsAfter(recs: seq<Rec>, id: IdText): Attrs {
    if recs == [] then map[]
    else
      var front, last := AttrsAfter(recs[..|recs| - 1], id), recs[|recs| - 1];
      if last.videoId == id then front + (last.metadata - {REASON_LABEL}) else front
  }

  /** The card at position `i`: own reason and score, label so far, the given attributes. */
  function ItemAt(t: Table, recs: seq<Rec>, i: nat, attributes: Attrs): PlainItem
    requires i < |recs| && Hydrates(t, recs[i])
  {
    var r := recs[i];
    Base(r.videoId.uuid, t[r.videoId.uuid]).(
      reasonCode := r.reason, reasonLabel := LabelAfter(recs[..i + 1], r.videoId), score := r.score,
      attributes := attributes)
  }

  /** The positions of the recommendations that hydrate. */
  function Hydrated(t: Table, recs: seq<Rec>): (h: seq<nat>)
    ensures forall k :: 0 <= k < |h| ==> h[k] < |recs| && Hydrates(t, recs[h[k]])
    ensures forall k, l :: 0 <= k < l < |h| ==> h[k] < h[l]
  {
    if recs == [] then []
    else
      var n := |recs| - 1;
      var front := Hydrated(t, recs[..n]);
      if Hydrates(t, recs[n]) then front + [n] else front
  }

  /** The cards of a response, with the attributes they have once every recommendation is merged. */
  function Items(t: Table, recs: seq<Rec>): (items: seq<PlainItem>)
    ensures |items| == |Hydrated(t, recs)|
  {
    var h := Hydrated(t, recs);
    seq(|h|, k requires 0 <= k < |h| => ItemAt(t, recs, h[k], AttrsAfter(recs, recs[h[k]].videoId)))
  }

  /** Every card is that of a stored row, under the id its recommendation gave. */
  lemma ItemsDisplayRows(t: Table, recs: seq<Rec>, k: nat)
    requires k < |Items(t, recs)|
    ensures var item, i := Items(t, recs)[k], Hydrated(t, recs)[k];
            && item.videoId == recs[i].videoId && item.videoId.Canonical? && item.videoId.uuid in t
            && DisplaysRow(item, t[item.videoId.uuid])
            && item.reasonCode == recs[i].reason && item.score == recs[i].score
  {
  }

  const INVALID_ID := "invalid video id"
  const NO_PROJECTION := "projection missing"

  function Invalid(recs: seq<Rec>): seq<MissingProjection> {
    if recs == [] then []
    else
      var front, last := Invalid(recs[..|recs| - 1]), recs[|recs| - 1];
      if last.videoId.Unparsable? then front + [MissingProjection(last.videoId, INVALID_ID)] else front
  }

  function Unhydrated(t: Table, recs: seq<Rec>): seq<MissingProjection> {
    if recs == [] then []
    else
      var front, last := Unhydrated(t, recs[..|recs| - 1]), recs[|recs| - 1];
      if Hydrates(t, last) then front else front + [MissingProjection(last.videoId, NO_PROJECTION)]
  }

  /** The missing list: every unparsable id, then every id that found no card. */
  function Missing(t: Table, recs: seq<Rec>): seq<MissingProjection> {
    Invalid(recs) + Unhydrated(t, recs)
  }

  function IdsOf(ms: seq<MissingProjection>): (ids: seq<IdText>)
    ensures |ids| == |ms| && forall i :: 0 <= i < |ms| ==> ids[i] == ms[i].videoId
  {
    seq(|ms|, i requires 0 <= i < |ms| => ms[i].videoId)
  }
}
