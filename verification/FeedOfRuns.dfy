/** The two halves together: what a served card shows of the events delivered so far. */
module FeedOfRuns {
  import opened Prelude
  import opened Projection
  import opened CatalogEvents
  import opened DeliveryRuns
  import opened VersionGuard
  import opened LastWriter
  import opened FeedModel

  /** After any schedule each column of a row is the latest write among the video's records. */
  lemma RowIsLatestWrites(t: Table, ds: seq<Delivery>, id: Uuid, base: Row)
    requires TableOk(t) && (id in t ==> base == t[id]) && id in Run(t, ds)
    ensures Run(t, ds)[id] == Written(base, Records(VersionOf(Lookup(t, id)), Only(ds, id)))
  {
    RunIsPerVideo(t, ds, id);
    LastWriterWins(Lookup(t, id), base, Only(ds, id));
    assert Lookup(Run(t, ds), id) == Some(Run(t, ds)[id]);
  }

  /**
   * From events to cards. For every schedule of deliveries and every list of recommendations, each
   * column of each served card is the latest write of that column among the records of its video,
   * where a column without a value reads as empty or 0. Without a starting row `base` is arbitrary:
   * the first record is then a Created, which sets every column.
   */
  lemma CardsShowLatestWrites(t: Table, ds: seq<Delivery>, recs: seq<Rec>, k: nat, base: Row)
    requires TableOk(t) && k < |Items(Run(t, ds), recs)|
    requires var id := recs[Hydrated(Run(t, ds), recs)[k]].videoId.uuid; id in t ==> base == t[id]
    ensures var id := recs[Hydrated(Run(t, ds), recs)[k]].videoId.uuid;
            var rs := Records(VersionOf(Lookup(t, id)), Only(ds, id));
            var card := Items(Run(t, ds), recs)[k];
            && card.videoId == Canonical(id)
            && card.title == LastWrite(TitleWrite, rs, base.title)
            && card.description == (match LastWrite(DescriptionWrite, rs, base.description)
                                    case Some(text) => text case None => "")
            && card.durationMicros == (match LastWrite(DurationWrite, rs, base.durationMicros)
                                       case Some(micros) => micros case None => 0)
            && card.thumbnailUrl == (match LastWrite(ThumbnailWrite, rs, base.thumbnailUrl)
                                     case Some(url) => url case None => "")
            && card.hlsMasterPlaylist == (match LastWrite(PlaylistWrite, rs, base.hlsMasterPlaylist)
                                          case Some(url) => url case None => "")
            && card.visibilityStatus == (match LastWrite(VisibilityWrite, rs, base.visibilityStatus)
                                         case Some(text) => text case None => "")
            && card.publishedAt == LastWrite(PublishedWrite, rs, base.publishedAt)
  {
    ItemsDisplayRows(Run(t, ds), recs, k);
    RowIsLatestWrites(t, ds, recs[Hydrated(Run(t, ds), recs)[k]].videoId.uuid, base);
  }
}
