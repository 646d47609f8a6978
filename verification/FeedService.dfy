/** The feed use case: hydrate recommendations through an index of shared cards, and log the call. */
module FeedService {
  import opened Prelude
  import opened Projection
  import opened ProjectionRepository
  import opened FeedModel
  import opened FeedOutcome
  import opened RecommendationLog
  import opened Text

  /** What a `*FeedItem` points to. */
  class ItemCell {
    var item: LiveItem

    constructor (item: LiveItem)
      ensures this.item == item
    {
      this.item := item;
    }

    /** Merge one recommendation into the card, in place, and its metadata into the shared map. */
    method ApplyRecommendation(reason: string, metadata: StringMap?, score: real)
      requires item.attributes != null ==> item.attributes != metadata
      modifies this, item.attributes
      ensures var meta := old(Entries(metadata));
              && item == old(item).(
                   reasonCode := reason, score := score, attributes := item.attributes,
                   reasonLabel := if "reason_label" in meta && meta["reason_label"] != "" then meta["reason_label"]
                                  else old(item).reasonLabel)
              && Entries(item.attributes) == old(Entries(item.attributes)) + (meta - {"reason_label"})
      ensures old(item.attributes) != null ==> item.attributes == old(item.attributes)
      ensures old(item.attributes) == null && item.attributes != null ==> fresh(item.attributes)
    {
      item := item.(reasonCode := reason, score := score);
      if metadata == null || metadata.entries == map[] {
        return;
      }
      if REASON_LABEL in metadata.entries && metadata.entries[REASON_LABEL] != "" {
        item := item.(reasonLabel := metadata.entries[REASON_LABEL]);
      }
      if item.attributes == null {
        var attributes := new StringMap();
        item := item.(attributes := attributes);
      }
      CopyInto(item.attributes, metadata, {REASON_LABEL});
    }
  }

  method FeedItemFromProjection(record: Record) returns (item: LiveItem)
    requires record.videoId.Canonical?
    ensures item.attributes != null && fresh(item.attributes)
    ensures View(item) == Base(record.videoId.uuid, record.row)
    ensures item.videoId == record.videoId && DisplaysRow(item, record.row)
  {
    var attributes := new StringMap();
    var row := record.row;
    item := FeedItem(record.videoId, row.title, Deref(row.description, ""), Deref(row.durationMicros, 0),
                     Deref(row.thumbnailUrl, ""), Deref(row.hlsMasterPlaylist, ""), "", "", 0.0,
                     Deref(row.visibilityStatus, ""), None, attributes);
    if row.publishedAt.Some? {
      item := item.(publishedAt := row.publishedAt);
    }
  }

  type Index = map<IdText, ItemCell>

  /** The attribute map each card holds; merging never replaces it. */
  type Maps = map<IdText, StringMap>

  /** Each id has its own cell, and each cell its own map. */
  predicate Separate(index: Index, maps: Maps) {
    && maps.Keys == index.Keys
    && (forall k, l :: k in index && l in index && k != l ==> index[k] != index[l] && maps[k] != maps[l])
  }

  /** The card of `id` after merging the occurrences of `id` in `recs`. */
  function CardAfter(t: Table, recs: seq<Rec>, id: IdText, reason: string, score: real): PlainItem
    requires id.Canonical? && id.uuid in t
  {
    Base(id.uuid, t[id.uuid]).(
      reasonCode := reason, reasonLabel := LabelAfter(recs, id), score := score,
      attributes := AttrsAfter(recs, id))
  }

  ghost predicate Holds(cell: ItemCell, m: StringMap, t: Table, recs: seq<Rec>, k: IdText)
    reads cell, m
  {
    && k.Canonical? && k.uuid in t && cell.item.attributes == m
    && WithAttributes(cell.item, m.entries) == CardAfter(t, recs, k, cell.item.reasonCode, cell.item.score)
  }

  ghost predicate IndexAfter(index: Index, maps: Maps, t: Table, recs: seq<Rec>)
    requires maps.Keys == index.Keys
    reads index.Values, maps.Values
  {
    forall k :: k in index ==> Holds(index[k], maps[k], t, recs, k)
  }

  method NewCell(record: Record) returns (cell: ItemCell, m: StringMap)
    requires record.videoId.Canonical?
    ensures fresh(cell) && fresh(m) && cell.item.attributes == m
    ensures View(cell.item) == Base(record.videoId.uuid, record.row)
  {
    var item := FeedItemFromProjection(record);
    cell := new ItemCell(item);
    m := item.attributes;
  }

  /** Rows of `t`, one per video. */
  predicate RowsOf(t: Table, records: seq<Record>) {
    && (forall i :: 0 <= i < |records| ==>
          records[i].videoId.Canonical? && records[i].videoId.uuid in t
          && records[i].row == t[records[i].videoId.uuid])
    && (forall i, j :: 0 <= i < j < |records| ==> records[i].videoId != records[j].videoId)
  }

  function IdSet(records: seq<Record>): set<IdText> {
    set i | 0 <= i < |records| :: records[i].videoId
  }

  lemma NextIsNew(t: Table, records: seq<Record>, n: nat)
    requires RowsOf(t, records) && n < |records|
    ensures records[n].videoId !in IdSet(records[..n])
    ensures IdSet(records[..n + 1]) == IdSet(records[..n]) + {records[n].videoId}
  {
    forall id ensures id in IdSet(records[..n + 1]) <==> id in IdSet(records[..n]) || id == records[n].videoId {
      if id in IdSet(records[..n]) {
        var i :| 0 <= i < n && records[..n][i].videoId == id;
        assert records[..n + 1][i].videoId == id;
      }
      assert records[..n + 1][n] == records[n];
    }
  }

  /** Put a new card into the index under the id its record prints. */
  method AddCard(index: Index, record: Record, ghost maps: Maps, ghost t: Table)
    returns (index': Index, ghost maps': Maps)
    requires Separate(index, maps) && IndexAfter(index, maps, t, []) && record.videoId !in index
    requires record.videoId.Canonical? && record.videoId.uuid in t && record.row == t[record.videoId.uuid]
    ensures Separate(index', maps') && IndexAfter(index', maps', t, [])
    ensures index'.Keys == index.Keys + {record.videoId}
    ensures forall k :: k in index' ==> (k in index && index'[k] == index[k]) || fresh(index'[k])
    ensures forall k :: k in maps' ==> (k in maps && maps'[k] == maps[k]) || fresh(maps'[k])
  {
    var cell, m := NewCell(record);
    assert Holds(cell, m, t, [], record.videoId);
    index' := index[record.videoId := cell];
    maps' := maps[record.videoId := m];
  }

  /** One card per row. */
  method BuildIndex(records: seq<Record>, ghost t: Table) returns (index: Index, ghost maps: Maps)
    requires RowsOf(t, records)
    ensures forall k :: k in index ==> fresh(index[k])
    ensures forall k :: k in maps ==> fresh(maps[k])
    ensures Separate(index, maps) && IndexAfter(index, maps, t, [])
    ensures index.Keys == IdSet(records)
  {
    index, maps := map[], map[];
    for n := 0 to |records|
      invariant forall k :: k in index ==> fresh(index[k])
      invariant forall k :: k in maps ==> fresh(maps[k])
      invariant Separate(index, maps) && IndexAfter(index, maps, t, [])
      invariant index.Keys == IdSet(records[..n])
    {
      NextIsNew(t, records, n);
      index, maps := AddCard(index, records[n], maps, t);
    }
    assert records[..|records|] == records;
  }

  lemma CardSnoc(t: Table, before: seq<Rec>, v: Rec, k: IdText, reason: string, score: real)
    requires k.Canonical? && k.uuid in t
    ensures var old', new' := CardAfter(t, before, k, reason, score), CardAfter(t, before + [v], k, reason, score);
            new' == if k != v.videoId then old'
                    else old'.(reasonLabel := if GivesLabel(v, k) then v.metadata[REASON_LABEL] else old'.reasonLabel,
                               attributes := old'.attributes + (v.metadata - {REASON_LABEL}))
  {
    assert (before + [v])[..|before + [v]| - 1] == before;
  }

  /** A card no recommendation of which comes next stays as it is. */
  lemma OthersHold(cell: ItemCell, m: StringMap, t: Table, before: seq<Rec>, v: Rec, k: IdText)
    requires Holds(cell, m, t, before, k) && k != v.videoId
    ensures Holds(cell, m, t, before + [v], k)
  {
    CardSnoc(t, before, v, k, cell.item.reasonCode, cell.item.score);
  }

  /** A recommendation for no card in the index leaves every card as it is. */
  lemma SkipKeepsIndex(index: Index, maps: Maps, t: Table, before: seq<Rec>, v: Rec)
    requires maps.Keys == index.Keys && IndexAfter(index, maps, t, before) && v.videoId !in index
    ensures IndexAfter(index, maps, t, before + [v])
  {
    forall k | k in index ensures Holds(index[k], maps[k], t, before + [v], k) {
      OthersHold(index[k], maps[k], t, before, v, k);
    }
  }

  /** Merge one recommendation into its card and copy the card out. */
  method MergeInto(cell: ItemCell, ghost m: StringMap, rec: LiveRec,
                   ghost t: Table, ghost before: seq<Rec>, ghost v: Rec)
    returns (item: LiveItem)
    requires Holds(cell, m, t, before, rec.videoId) && rec.metadata != m && v == RecValue(rec)
    modifies cell, m
    ensures Holds(cell, m, t, before + [v], rec.videoId)
    ensures item == cell.item && item.reasonCode == rec.reason && item.score == rec.score
  {
    cell.ApplyRecommendation(rec.reason, rec.metadata, rec.score);
    CardSnoc(t, before, v, rec.videoId, cell.item.reasonCode, cell.item.score);
    item := cell.item;
  }

  method HydrateOne(index: Index, rec: LiveRec, ghost maps: Maps, ghost t: Table, ghost before: seq<Rec>, ghost v: Rec)
    returns (item: LiveItem)
    requires Separate(index, maps) && IndexAfter(index, maps, t, before)
    requires rec.videoId in index && rec.metadata != maps[rec.videoId] && v == RecValue(rec)
    modifies index[rec.videoId], maps[rec.videoId]
    ensures IndexAfter(index, maps, t, before + [v])
    ensures item == index[rec.videoId].item && item.reasonCode == rec.reason && item.score == rec.score
  {
    forall k | k in index && k != rec.videoId ensures Holds(index[k], maps[k], t, before + [v], k) {
      OthersHold(index[k], maps[k], t, before, v, k);
    }
    item := MergeInto(index[rec.videoId], maps[rec.videoId], rec, t, before, v);
  }

  /** `item` was copied out at position `i` and shares the map of its card. */
  predicate CopiedAt(maps: Maps, t: Table, vals: seq<Rec>, i: nat, item: LiveItem)
    requires i < |vals| && Hydrates(t, vals[i])
  {
    && item.videoId in maps && item.attributes == maps[item.videoId]
    && WithAttributes(item, map[]) == ItemAt(t, vals, i, map[])
  }

  predicate CopiedOut(maps: Maps, t: Table, vals: seq<Rec>, n: nat, items: seq<LiveItem>)
    requires n <= |vals|
  {
    var h := Hydrated(t, vals[..n]);
    |items| == |h|
    && forall k :: 0 <= k < |h| ==> Hydrates(t, vals[..n][h[k]]) && CopiedAt(maps, t, vals, h[k], items[k])
  }

  lemma HydratedSnoc(t: Table, vals: seq<Rec>, n: nat)
    requires n < |vals|
    ensures vals[..n + 1] == vals[..n] + [vals[n]]
    ensures Hydrated(t, vals[..n + 1])
            == if Hydrates(t, vals[n]) then Hydrated(t, vals[..n]) + [n] else Hydrated(t, vals[..n])
    ensures Unhydrated(t, vals[..n + 1])
            == if Hydrates(t, vals[n]) then Unhydrated(t, vals[..n])
               else Unhydrated(t, vals[..n]) + [MissingProjection(vals[n].videoId, NO_PROJECTION)]
  {
    assert vals[..n + 1][..n] == vals[..n];
  }

  /** The card just merged, copied out, is the item of its position. */
  lemma CopyIsItem(cell: ItemCell, maps: Maps, t: Table, vals: seq<Rec>, n: nat, item: LiveItem)
    requires n < |vals| && Hydrates(t, vals[n]) && vals[n].videoId in maps
    requires Holds(cell, maps[vals[n].videoId], t, vals[..n] + [vals[n]], vals[n].videoId)
    requires item == cell.item && item.reasonCode == vals[n].reason && item.score == vals[n].score
    ensures CopiedAt(maps, t, vals, n, item)
  {
    assert vals[..n + 1] == vals[..n] + [vals[n]];
  }

  lemma CopiedOutSnoc(maps: Maps, t: Table, vals: seq<Rec>, n: nat, items: seq<LiveItem>, item: LiveItem)
    requires n < |vals| && Hydrates(t, vals[n])
    requires CopiedOut(maps, t, vals, n, items) && CopiedAt(maps, t, vals, n, item)
    ensures CopiedOut(maps, t, vals, n + 1, items + [item])
  {
    HydratedSnoc(t, vals, n);
    var h, front := Hydrated(t, vals[..n + 1]), Hydrated(t, vals[..n]);
    assert h == front + [n];
    forall k | 0 <= k < |h|
      ensures Hydrates(t, vals[..n + 1][h[k]]) && CopiedAt(maps, t, vals, h[k], (items + [item])[k])
    {
      if k < |items| {
        assert h[k] == front[k] && Hydrates(t, vals[..n][h[k]]);
      }
    }
  }

  /** Once everything is merged, what is seen through the copies is the pure hydration. */
  lemma CopiesShowItems(index: Index, maps: Maps, t: Table, vals: seq<Rec>, items: seq<LiveItem>)
    requires Separate(index, maps) && IndexAfter(index, maps, t, vals) && CopiedOut(maps, t, vals, |vals|, items)
    ensures Shows(items, Items(t, vals))
    ensures forall k :: 0 <= k < |items| ==> items[k].videoId in maps && items[k].attributes == maps[items[k].videoId]
    ensures Shared(items)
  {
    assert vals[..|vals|] == vals;
    var h := Hydrated(t, vals);
    forall k | 0 <= k < |items|
      ensures View(items[k]) == Items(t, vals)[k]
      ensures items[k].videoId in maps && items[k].attributes == maps[items[k].videoId]
    {
      assert CopiedAt(maps, t, vals, h[k], items[k]);
      assert Holds(index[items[k].videoId], maps[items[k].videoId], t, vals, items[k].videoId);
    }
  }

  /** The index answers for the recommendations, and holds none of the provider's maps. */
  predicate Serves(index: Index, maps: Maps, recs: seq<LiveRec>, t: Table, vals: seq<Rec>) {
    && Separate(index, maps) && |recs| == |vals|
    && forall k :: 0 <= k < |recs| ==>
         recs[k].metadata !in maps.Values && (recs[k].videoId in index <==> Hydrates(t, vals[k]))
  }

  /** One round of the second loop: merge and copy out, or collect as missing. */
  method HydrateNext(index: Index, recs: seq<LiveRec>, n: nat, ghost maps: Maps, ghost t: Table, ghost vals: seq<Rec>,
                     items: seq<LiveItem>, missing: seq<MissingProjection>)
    returns (items': seq<LiveItem>, missing': seq<MissingProjection>)
    requires Serves(index, maps, recs, t, vals) && Reads(recs, vals) && n < |recs|
    requires IndexAfter(index, maps, t, vals[..n]) && CopiedOut(maps, t, vals, n, items)
    requires missing == Unhydrated(t, vals[..n])
    modifies index.Values, maps.Values
    ensures Reads(recs, vals)
    ensures IndexAfter(index, maps, t, vals[..n + 1]) && CopiedOut(maps, t, vals, n + 1, items')
    ensures missing' == Unhydrated(t, vals[..n + 1])
  {
    HydratedSnoc(t, vals, n);
    var rec := recs[n];
    assert RecValue(rec) == vals[n];
    if rec.videoId in index {
      assert index[rec.videoId] in index.Values && maps[rec.videoId] in maps.Values;
      assert forall k :: 0 <= k < |recs| ==> recs[k].metadata != maps[rec.videoId];
      var item := HydrateOne(index, rec, maps, t, vals[..n], vals[n]);
      CopyIsItem(index[rec.videoId], maps, t, vals, n, item);
      CopiedOutSnoc(maps, t, vals, n, items, item);
      items', missing' := items + [item], missing;
    } else {
      SkipKeepsIndex(index, maps, t, vals[..n], vals[n]);
      items', missing' := items, missing + [MissingProjection(rec.videoId, NO_PROJECTION)];
    }
  }

  /** The second loop. The provider's metadata is read, never written. */
  method Hydrate(index: Index, recs: seq<LiveRec>, ghost maps: Maps, ghost t: Table, ghost vals: seq<Rec>)
    returns (items: seq<LiveItem>, missing: seq<MissingProjection>)
    requires Serves(index, maps, recs, t, vals) && IndexAfter(index, maps, t, []) && Reads(recs, vals)
    modifies index.Values, maps.Values
    ensures IndexAfter(index, maps, t, vals) && CopiedOut(maps, t, vals, |vals|, items)
    ensures missing == Unhydrated(t, vals)
  {
    items, missing := [], [];
    for n := 0 to |recs|
      invariant Reads(recs, vals)
      invariant IndexAfter(index, maps, t, vals[..n]) && CopiedOut(maps, t, vals, n, items)
      invariant missing == Unhydrated(t, vals[..n])
    {
      items, missing := HydrateNext(index, recs, n, maps, t, vals, items, missing);
    }
    assert vals[..|vals|] == vals;
  }

  /** The first loop: parse every id, noting those that do not parse. */
  method ResolveIds(recs: seq<LiveRec>, ghost vals: seq<Rec>) returns (ids: seq<Uuid>, missing: seq<MissingProjection>)
    requires Reads(recs, vals)
    ensures ids == ParsedIds(vals) && missing == Invalid(vals)
  {
    ids, missing := [], [];
    for n := 0 to |recs|
      invariant ids == ParsedIds(vals[..n]) && missing == Invalid(vals[..n])
    {
      assert vals[..n + 1][..n] == vals[..n] && vals[n] == RecValue(recs[n]);
      var parsed := ParseUuid(recs[n].videoId);
      if parsed.None? {
        missing := missing + [MissingProjection(recs[n].videoId, INVALID_ID)];
      } else {
        ids := ids + [parsed.value];
      }
    }
    assert vals[..|recs|] == vals;
  }

  class FeedService {
    const projections: FeedVideoProjectionRepository
    const logs: RecommendationLogRepository?
    const providerSource: string

    constructor (projections: FeedVideoProjectionRepository, logs: RecommendationLogRepository?, source: string)
      ensures this.projections == projections && this.logs == logs && providerSource == source
    {
      this.projections, this.logs, this.providerSource := projections, logs, source;
    }

    /** One batch query, one card per row found. */
    method FetchIndex(ids: seq<Uuid>, listUp: bool, ghost t: Table)
      returns (r: Result<Index, FeedError>, ghost maps: Maps)
      requires t == projections.Contents()
      ensures r.Err? <==> ids != [] && !listUp
      ensures r.Err? ==> r.error == ProjectionFailed
      ensures r.Ok? ==>
        && Separate(r.value, maps) && IndexAfter(r.value, maps, t, [])
        && (forall k :: k in r.value ==> fresh(r.value[k]))
        && (forall k :: k in maps ==> fresh(maps[k]))
        && (forall k :: k in r.value <==> k.Canonical? && k.uuid in ids && k.uuid in t)
    {
      var index: Index := map[];
      maps := map[];
      if |ids| > 0 {
        var listed := projections.ListByIDs(ids, listUp);
        if listed.Err? {
          return Err(ProjectionFailed), map[];
        }
        index, maps := BuildIndex(listed.value, t);
      }
      return Ok(index), maps;
    }

    /** Hydrate against the table of the moment the batch query is answered. */
    method HydrateAll(recs: seq<LiveRec>, ids: seq<Uuid>, listUp: bool, ghost t: Table, ghost vals: seq<Rec>)
      returns (r: Result<seq<LiveItem>, FeedError>, missing: seq<MissingProjection>)
      requires t == projections.Contents() && Reads(recs, vals) && ids == ParsedIds(vals)
      ensures r.Err? <==> ids != [] && !listUp
      ensures r.Err? ==> r.error == ProjectionFailed
      ensures r.Ok? ==>
        && missing == Unhydrated(t, vals) && Shows(r.value, Items(t, vals)) && Shared(r.value)
        && (forall k :: 0 <= k < |r.value| ==> fresh(r.value[k].attributes))
    {
      missing := [];
      var fetched, maps := FetchIndex(ids, listUp, t);
      if fetched.Err? {
        return Err(fetched.error), missing;
      }
      forall k | 0 <= k < |recs| ensures recs[k].videoId in fetched.value <==> Hydrates(t, vals[k]) {
        assert RecValue(recs[k]) == vals[k];
        if recs[k].videoId.Canonical? {
          ParsedIdsHave(vals, k);
        }
      }
      var items;
      items, missing := Hydrate(fetched.value, recs, maps, t, vals);
      CopiesShowItems(fetched.value, maps, t, vals, items);
      r := Ok(items);
    }

    /** One call logs exactly one entry, all of whose maps are its own. */
    twostate predicate LoggedOnce(record: LogRecord, insertUp: bool)
      requires logs != null
      reads logs, set e, k | e in logs.attempts && 0 <= k < |e.recommended| :: e.recommended[k].metadata
    {
      && |logs.attempts| == |old(logs.attempts)| + 1 && old(logs.attempts) < logs.attempts
      && (var entry := logs.attempts[|old(logs.attempts)|];
          && Contains(entry, record)
          && forall k :: 0 <= k < |entry.recommended| && entry.recommended[k].metadata != null ==>
               fresh(entry.recommended[k].metadata))
      && logs.rows == if insertUp then old(logs.rows) + [record] else old(logs.rows)
    }

    /** The maps of the entry just logged are none of the maps the items hold. */
    ghost predicate Isolated(items: seq<LiveItem>)
      reads this, logs
    {
      logs != null && logs.attempts != [] ==>
        var logged := logs.attempts[|logs.attempts| - 1].recommended;
        forall k, l :: 0 <= k < |items| && 0 <= l < |logged| ==> items[k].attributes != logged[l].metadata
    }

    /** `now` was just read from the clock, so it also serves where the clock is read again. */
    method LogRecommendation(call: Call, recommended: seq<LiveRec>, missing: seq<IdText>, errorKind: string,
                             insertUp: bool, ghost served: Served)
      requires Reads(recommended, served.logged) && missing == served.loggedMissing && errorKind == served.errorKind
      modifies logs
      ensures logs != null ==> LoggedOnce(LogOf(served, call, providerSource), insertUp)
    {
      if logs == null {
        return;
      }
      var source := FirstNonEmpty(call.source, providerSource);
      var params := LogParams(call.userId, call.limit, source, call.latencyMs, recommended, missing, errorKind,
                              call.now);
      var entry := NewFeedRecommendationLog(params, call.now, served.logged);
      var _ := logs.Insert(entry, insertUp, LogOf(served, call, providerSource));
    }

    /** The hydrated response, logged. */
    method Respond(items: seq<LiveItem>, missing: seq<MissingProjection>, copies: seq<LiveRec>, call: Call,
                   insertUp: bool, ghost served: Served)
      returns (resp: FeedResponse)
      requires Shows(items, served.items) && Shared(items) && missing == served.missing
      requires Reads(copies, served.logged) && IdsOf(missing) == served.loggedMissing && served.errorKind == ""
      modifies logs
      ensures Responds(resp, served, call.now) && resp.items == items
      ensures logs != null ==> LoggedOnce(LogOf(served, call, providerSource), insertUp)
      ensures Isolated(items)
    {
      resp := FeedResponse(items, "", |missing| > 0, call.now, missing);
      LogRecommendation(call, copies, IdsOf(missing), "", insertUp, served);
    }

    /** The part of a call that has recommendations: copy them for the log, parse the ids, hydrate. */
    method ServeRecommendations(recs: seq<LiveRec>, call: Call, listUp: bool, insertUp: bool,
                                ghost t: Table, ghost vals: seq<Rec>)
      returns (r: Result<FeedResponse, FeedError>)
      requires recs != [] && t == projections.Contents() && Reads(recs, vals)
      modifies logs
      ensures Answers(r, Serve(t, vals, None, listUp), call.now)
      ensures r.Ok? ==> forall k :: 0 <= k < |r.value.items| ==> fresh(r.value.items[k].attributes)
      ensures r.Ok? ==> Isolated(r.value.items)
      ensures logs != null ==> LoggedOnce(LogOf(Serve(t, vals, None, listUp), call, providerSource), insertUp)
    {
      ghost var served := Serve(t, vals, None, listUp);
      var copies := CloneItems(recs, vals);
      var ids, invalid := ResolveIds(recs, vals);
      var hydrated, unhydrated := HydrateAll(recs, ids, listUp, t, vals);
      if hydrated.Err? {
        LogRecommendation(call, copies, IdsOf(invalid), "projection_error", insertUp, served);
        return Err(hydrated.error);
      }
      var resp := Respond(hydrated.value, invalid + unhydrated, copies, call, insertUp, served);
      return Ok(resp);
    }

    /**
     * The use case. The reply is the provider's answer to a request for `ClampLimit(limit)` items and
     * `vals` its content; `elapsed` is how many nanoseconds it took.
     */
    method GetFeed(userId: string, limit: int, reply: ProviderReply, elapsed: int, now: Time, listUp: bool,
                   insertUp: bool, ghost vals: seq<Rec>)
      returns (r: Result<FeedResponse, FeedError>)
      requires Reads(ItemsOf(reply), vals)
      modifies logs
      ensures Answers(r, Serve(old(projections.Contents()), vals, reply.error, listUp), now)
      ensures r.Ok? ==> forall k :: 0 <= k < |r.value.items| ==> fresh(r.value.items[k].attributes)
      ensures AnswersCall(r, old(projections.Contents()), vals, reply.error, listUp, now)
      ensures r.Ok? ==> Isolated(r.value.items)
      ensures logs != null ==>
        LoggedOnce(LogOf(Serve(old(projections.Contents()), vals, reply.error, listUp),
                         Call(userId, ClampLimit(limit), SourceOf(reply, providerSource), MillisOrZero(elapsed), now),
                         providerSource),
                   insertUp)
      ensures logs != null ==>
        var entry := logs.attempts[|old(logs.attempts)|];
        && LogsCall(entry, userId, limit, reply, providerSource, elapsed, now)
        && LogsOutcome(entry, old(projections.Contents()), vals, reply.error, listUp)
    {
      ghost var t := projections.Contents();
      ghost var served := Serve(t, vals, reply.error, listUp);
      var clamped := limit;
      if clamped <= 0 {
        clamped := 10;
      }
      if clamped > 100 {
        clamped := 100;
      }
      var call := Call(userId, clamped, SourceOf(reply, providerSource), MillisOrZero(elapsed), now);
      if reply.error.Some? {
        LogRecommendation(call, [], [], ErrorKind(reply.error.value), insertUp, served);
        r := Err(ProviderFailed(reply.error.value));
      } else if reply.result.None? || reply.result.value.items == [] {
        var resp := FeedResponse([], "", false, now, []);
        LogRecommendation(call, [], [], "", insertUp, served);
        r := Ok(resp);
      } else {
        r := ServeRecommendations(reply.result.value.items, call, listUp, insertUp, t, vals);
      }
      AnswerTells(r, t, vals, reply.error, listUp, now);
      if logs != null {
        EntryTells(logs.attempts[|old(logs.attempts)|], t, vals, reply, listUp, userId, limit, elapsed, now,
                   providerSource);
      }
    }
  }
}
