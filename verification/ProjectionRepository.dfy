/** The repository over `feed.videos_projection`: a keyed table overwritten in place. */
module ProjectionRepository {
  import opened Prelude
  import opened Projection

  datatype UpsertInput = UpsertInput(
    videoId: Uuid,
    title: string,
    description: Option<string>,
    durationMicros: Option<int>,
    thumbnailUrl: Option<string>,
    hlsMasterPlaylist: Option<string>,
    status: Option<string>,
    visibilityStatus: Option<string>,
    publishedAt: Option<Time>,
    version: int,
    updatedAt: Option<Time>)

  /** The row an upsert leaves behind; the database clock fills a missing `updated_at`. */
  function RowOf(input: UpsertInput, now: Time): Row {
    Row(input.title, input.description, input.durationMicros, input.thumbnailUrl,
        input.hlsMasterPlaylist, input.status, input.visibilityStatus, input.publishedAt,
        input.version, if input.updatedAt.Some? then input.updatedAt.value else now)
  }

  datatype DbError = NoRows | QueryFailed

  /** A record as read back: its id is always printed canonically. */
  datatype Record = Record(videoId: IdText, row: Row)

  /** `records` is a listing, in some order and without repetition, of the rows stored for `ids`. */
  ghost predicate Lists(t: Table, ids: seq<Uuid>, records: seq<Record>) {
    && (forall i :: 0 <= i < |records| ==>
          records[i].videoId.Canonical? && records[i].videoId.uuid in ids && records[i].videoId.uuid in t
          && records[i].row == t[records[i].videoId.uuid])
    && (forall i, j :: 0 <= i < j < |records| ==> records[i].videoId != records[j].videoId)
    && (forall id :: id in ids && id in t ==>
          exists i :: 0 <= i < |records| && records[i].videoId == Canonical(id))
  }

  /** `picked` is what `where status = 'ready' order by random() limit n` may return. */
  ghost predicate RandomPick(t: Table, limit: nat, picked: seq<Uuid>) {
    && (forall i :: 0 <= i < |picked| ==> picked[i] in ReadyIds(t))
    && (forall i, j :: 0 <= i < j < |picked| ==> picked[i] != picked[j])
    && |picked| == Min(limit, |ReadyIds(t)|)
  }

  class FeedVideoProjectionRepository {
    var rows: map<Uuid, PgRow>

    ghost function Contents(): (t: Table)
      reads this
    {
      map id | id in rows :: RowFromPg(rows[id])
    }

    constructor ()
      ensures Contents() == map[]
    {
      rows := map[];
    }

    /** Insert or overwrite, with no comparison of versions. */
    method Upsert(input: UpsertInput, now: Time, up: bool) returns (r: Result<(), DbError>)
      modifies this
      ensures r == if up then Ok(()) else Err(QueryFailed)
      ensures Contents() == if up then old(Contents())[input.videoId := RowOf(input, now)]
                                  else old(Contents())
      ensures up ==> input.videoId in Contents()
                     && Contents()[input.videoId].updatedAt
                        == match input.updatedAt case Some(at) => at case None => now
    {
      if !up {
        return Err(QueryFailed);
      }
      var updatedAt := ToPg(input.updatedAt, ZERO_TIME);
      var stored := PgRow(
        input.title,
        ToPg(input.description, ""),
        ToPg(input.durationMicros, 0),
        ToPg(input.thumbnailUrl, ""),
        ToPg(input.hlsMasterPlaylist, ""),
        ToPg(input.status, ""),
        ToPg(input.visibilityStatus, ""),
        ToPg(input.publishedAt, ZERO_TIME),
        input.version,
        if updatedAt.valid then updatedAt.value else now);
      rows := rows[input.videoId := stored];
      assert RowFromPg(stored) == RowOf(input, now);
      return Ok(());
    }

    method Get(id: Uuid, up: bool) returns (r: Result<Record, DbError>)
      ensures r == if !up then Err(QueryFailed)
                   else match Lookup(Contents(), id)
                     case None => Err(NoRows)
                     case Some(row) => Ok(Record(Canonical(id), row))
    {
      if !up {
        return Err(QueryFailed);
      }
      if id !in rows {
        return Err(NoRows);
      }
      return Ok(Record(Canonical(id), RowFromPg(rows[id])));
    }

    /** `where video_id = any(ids)`: every stored row wanted, once, in no particular order. */
    method SelectAny(ids: seq<Uuid>) returns (found: seq<Uuid>)
      ensures forall id :: id in found <==> id in ids && id in rows
      ensures forall i, j :: 0 <= i < j < |found| ==> found[i] != found[j]
    {
      var left := set id | id in ids && id in rows;
      found := [];
      while left != {}
        invariant forall id :: id in left ==> id in ids && id in rows
        invariant forall id :: id in found || id in left <==> id in ids && id in rows
        invariant forall id :: id in left ==> id !in found
        invariant forall i, j :: 0 <= i < j < |found| ==> found[i] != found[j]
        decreases |left|
      {
        var id :| id in left;
        left := left - {id};
        found := found + [id];
      }
    }

    method ListByIDs(ids: seq<Uuid>, up: bool) returns (r: Result<seq<Record>, DbError>)
      ensures r.Err? <==> ids != [] && !up
      ensures r.Ok? ==> Lists(Contents(), ids, r.value)
    {
      if ids == [] {
        return Ok([]);
      }
      if !up {
        return Err(QueryFailed);
      }
      var found := SelectAny(ids);
      var records: seq<Record> := [];
      for n := 0 to |found|
        invariant |records| == n
        invariant forall i :: 0 <= i < n ==> records[i] == Record(Canonical(found[i]), RowFromPg(rows[found[i]]))
      {
        records := records + [Record(Canonical(found[n]), RowFromPg(rows[found[n]]))];
      }
      forall id | id in ids && id in Contents()
        ensures exists i :: 0 <= i < |records| && records[i].videoId == Canonical(id)
      {
        assert id in found;
        var i :| 0 <= i < |found| && found[i] == id;
        assert records[i].videoId == Canonical(id);
      }
      return Ok(records);
    }

    /** A limit that is negative as an int32 is refused by the database. */
    method ListRandomIDs(limit: int, up: bool) returns (r: Result<seq<Uuid>, DbError>)
      ensures limit <= 0 ==> r == Ok([])
      ensures limit > 0 ==> (r.Err? <==> !up || ToInt32(limit) < 0)
      ensures limit > 0 && r.Ok? ==> RandomPick(Contents(), ToInt32(limit), r.value)
      ensures r.Ok? ==> forall id <- r.value :: id in Contents() && Contents()[id].status == Some("ready")
    {
      if limit <= 0 {
        return Ok([]);
      }
      var n := ToInt32(limit);
      if !up || n < 0 {
        return Err(QueryFailed);
      }
      var left := set id | id in rows && FromPg(rows[id].status) == Some(READY);
      assert left == ReadyIds(Contents());
      var picked: seq<Uuid> := [];
      while left != {} && |picked| < n
        invariant left <= ReadyIds(Contents())
        invariant |picked| + |left| == |ReadyIds(Contents())| && |picked| <= n
        invariant forall i :: 0 <= i < |picked| ==> picked[i] in ReadyIds(Contents()) && picked[i] !in left
        invariant forall i, j :: 0 <= i < j < |picked| ==> picked[i] != picked[j]
        decreases |left|
      {
        var id :| id in left;
        left := left - {id};
        picked := picked + [id];
      }
      return Ok(picked);
    }
  }
}
