/** The copy of a feed response that leaves the service. */
module FeedHandler {
  import opened Prelude
  import opened Projection
  import opened FeedModel
  import opened FeedOutcome

  function NonZero(t: Option<Time>): Option<Time> {
    if t == Some(ZERO_TIME) then None else t
  }

  /** What the client reads for an item: everything it shows now, but no zero publish time. */
  ghost function ClientView(item: LiveItem): PlainItem
    reads item.attributes
  {
    View(item).(publishedAt := NonZero(item.publishedAt))
  }

  method ToProtoFeedItem(item: LiveItem) returns (proto: LiveItem)
    ensures proto.attributes != null && fresh(proto.attributes)
    ensures View(proto) == ClientView(item)
    ensures View(proto) == View(item).(publishedAt := proto.publishedAt)
    ensures forall at :: proto.publishedAt == Some(at) <==> item.publishedAt == Some(at) && at != 0
  {
    var attributes := new StringMap();
    if item.attributes != null {
      CopyInto(attributes, item.attributes, {});
    }
    assert attributes.entries == Entries(item.attributes);
    proto := item.(attributes := attributes, publishedAt := None);
    if item.publishedAt.Some? && item.publishedAt.value != ZERO_TIME {
      proto := proto.(publishedAt := item.publishedAt);
    }
  }

  datatype GetFeedResponse = GetFeedResponse(
    items: seq<LiveItem>,
    nextCursor: string,
    partial: bool,
    generatedAt: Option<Time>,
    missing: seq<MissingProjection>)

  /** No two client items hold the same map, not even copies of one card. */
  predicate Unshared(items: seq<LiveItem>) {
    forall k, l :: 0 <= k < l < |items| ==> items[k].attributes != items[l].attributes
  }

  method ToProtoFeedResponse(res: FeedResponse) returns (resp: GetFeedResponse)
    ensures |resp.items| == |res.items|
    ensures forall k :: 0 <= k < |resp.items| ==>
              fresh(resp.items[k].attributes) && View(resp.items[k]) == ClientView(res.items[k])
    ensures forall k :: 0 <= k < |resp.items| ==>
              View(resp.items[k]) == View(res.items[k]).(publishedAt := resp.items[k].publishedAt)
    ensures Unshared(resp.items)
    ensures resp.nextCursor == res.nextCursor && resp.partial == res.partial && resp.missing == res.missing
    ensures resp.generatedAt == if res.generatedAt != 0 then Some(res.generatedAt) else None
  {
    var items: seq<LiveItem> := [];
    for n := 0 to |res.items|
      invariant |items| == n && Unshared(items)
      invariant forall k :: 0 <= k < n ==>
                  && items[k].attributes != null && fresh(items[k].attributes)
                  && View(items[k]) == ClientView(res.items[k])
    {
      var item := ToProtoFeedItem(res.items[n]);
      items := items + [item];
    }
    var missing: seq<MissingProjection> := [];
    for n := 0 to |res.missing|
      invariant missing == res.missing[..n]
    {
      missing := missing + [res.missing[n]];
    }
    resp := GetFeedResponse(items, res.nextCursor, res.partial,
                            if res.generatedAt == ZERO_TIME then None else Some(res.generatedAt), missing);
  }
}
