/** The provider that recommends ready videos picked at random from the projection table. */
module MockProvider {
  import opened Prelude
  import opened Projection
  import opened ProjectionRepository
  import opened FeedModel
  import opened FeedOutcome

  const SOURCE := "mock"
  const REASON := "mock.random"

  /** A recommendation of this id, by its canonical text. */
  predicate Recommended(val: Rec, id: Uuid) {
    && val.videoId == Canonical(id) && val.reason == REASON
    && val.metadata == map["source" := SOURCE] && 0.0 <= val.score < 1.0
  }

  /** Recommendations of exactly the picked ids, in their order. */
  predicate Recommends(vals: seq<Rec>, picked: seq<Uuid>) {
    |vals| == |picked| && forall i :: 0 <= i < |vals| ==> Recommended(vals[i], picked[i])
  }

  function PickLimit(limit: int): (r: int)
    ensures limit > 0 ==> r == limit
    ensures limit <= 0 ==> r == 20
  {
    if limit <= 0 then 20 else limit
  }

  class MockRecommendationProvider {
    const repo: FeedVideoProjectionRepository
    /** How often the random source was used. */
    var draws: nat

    constructor (repo: FeedVideoProjectionRepository)
      ensures this.repo == repo && draws == 0
    {
      this.repo := repo;
      draws := 0;
    }

    method Float64() returns (x: real)
      modifies this
      ensures 0.0 <= x < 1.0 && draws == old(draws) + 1
    {
      x := *;
      if !(0.0 <= x < 1.0) {
        x := 0.0;
      }
      draws := draws + 1;
    }

    method Recommend(id: Uuid) returns (rec: LiveRec, ghost val: Rec)
      modifies this
      ensures rec.metadata != null && fresh(rec.metadata) && RecValue(rec) == val
      ensures Recommended(val, id)
      ensures draws == old(draws) + 1
    {
      var score := Float64();
      var metadata := new StringMap();
      metadata.entries := map["source" := SOURCE];
      rec := Recommendation(Canonical(id), REASON, score, metadata);
      val := RecValue(rec);
    }

    /** One recommendation per id, in the order of the ids. */
    method RecommendAll(ids: seq<Uuid>) returns (items: seq<LiveRec>, ghost vals: seq<Rec>)
      modifies this
      ensures Reads(items, vals) && Recommends(vals, ids) && draws == old(draws) + |ids|
    {
      items, vals := [], [];
      for n := 0 to |ids|
        invariant draws == old(draws) + n && |items| == |vals| == n
        invariant forall k :: 0 <= k < n ==> items[k].metadata != null && fresh(items[k].metadata)
        invariant forall k :: 0 <= k < n ==> RecValue(items[k]) == vals[k]
        invariant forall k :: 0 <= k < n ==> Recommended(vals[k], ids[k])
      {
        var rec, val := Recommend(ids[n]);
        items, vals := items + [rec], vals + [val];
      }
    }

    /** `picked` is the database's choice, `vals` the content of the reply. */
    method GetFeed(limit: int, up: bool) returns (reply: ProviderReply, ghost picked: seq<Uuid>, ghost vals: seq<Rec>)
      modifies this
      ensures reply.error == if !up || ToInt32(PickLimit(limit)) < 0 then Some(Unavailable) else None
      ensures reply.error.None? ==>
        && reply.result.Some? && reply.result.value.source == "mock"
        && RandomPick(repo.Contents(), ToInt32(PickLimit(limit)), picked)
        && Reads(reply.result.value.items, vals) && Recommends(vals, picked)
        && (forall val <- vals :: val.reason == "mock.random" && val.metadata == map["source" := "mock"])
        && draws == old(draws) + |picked|
    {
      var listed := repo.ListRandomIDs(PickLimit(limit), up);
      picked, vals := [], [];
      if listed.Err? {
        return ProviderReply(None, Some(Unavailable)), [], [];
      }
      var ids := listed.value;
      var items;
      items, vals := RecommendAll(ids);
      return ProviderReply(Some(RecommendationResult(items, SOURCE)), None), ids, vals;
    }
  }
}
