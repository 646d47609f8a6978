/**
 * One call of the feed use case as values: what is answered and what is logged. The laws at the end
 * say so over the recommendations themselves.
 */
module FeedOutcome {
  import opened Prelude
  import opened Projection
  import opened FeedModel
  import opened RecommendationLog
  import opened Text

  /** What the holder of the items sees now is `plain`. */
  ghost predicate Shows(items: seq<LiveItem>, plain: seq<PlainItem>)
    reads set k | 0 <= k < |items| :: items[k].attributes
  {
    |items| == |plain| && forall k :: 0 <= k < |items| ==> View(items[k]) == plain[k]
  }

  /** Two items hold the same map exactly when they are of the same video. */
  predicate Shared(items: seq<LiveItem>) {
    && (forall k :: 0 <= k < |items| ==> items[k].attributes != null)
    && (forall k, l :: 0 <= k < |items| && 0 <= l < |items| ==>
          (items[k].attributes == items[l].attributes <==> items[k].videoId == items[l].videoId))
  }

  /** The data of a call that every log entry repeats. */
  datatype Call = Call(userId: string, limit: int, source: string, latencyMs: int, now: Time)

  datatype ProviderError = Unavailable | OtherError

  datatype RecommendationResult = RecommendationResult(items: seq<LiveRec>, source: string)

  /** What the recommendation provider returns. */
  datatype ProviderReply = ProviderReply(result: Option<RecommendationResult>, error: Option<ProviderError>)

  datatype FeedError = ProviderFailed(error: ProviderError) | ProjectionFailed

  datatype FeedResponse = FeedResponse(
    items: seq<LiveItem>,
    nextCursor: string,
    partial: bool,
    generatedAt: Time,
    missing: seq<MissingProjection>)

  /** The limit handed to the provider and logged. */
  function ClampLimit(limit: int): (r: int)
    ensures 1 <= r <= 100 && (1 <= limit <= 100 ==> r == limit)
  {
    if limit <= 0 then 10 else Min(limit, 100)
  }

  function ErrorKind(e: ProviderError): string {
    match e
    case Unavailable => "recommendation_unavailable"
    case OtherError => "unknown_error"
  }

  function ItemsOf(reply: ProviderReply): seq<LiveRec> {
    if reply.error.Some? || reply.result.None? then [] else reply.result.value.items
  }

  function SourceOf(reply: ProviderReply, providerSource: string): string {
    if reply.result.Some? && reply.result.value.source != "" then reply.result.value.source else providerSource
  }

  function ParsedIds(recs: seq<Rec>): seq<Uuid> {
    if recs == [] then []
    else
      var front, last := ParsedIds(recs[..|recs| - 1]), recs[|recs| - 1];
      if ParseUuid(last.videoId).Some? then front + [ParseUuid(last.videoId).value] else front
  }

  /** One call of the use case as values: what is returned and what is logged. */
  datatype Served = Served(
    error: Option<FeedError>,
    items: seq<PlainItem>,
    missing: seq<MissingProjection>,
    logged: seq<Rec>,
    loggedMissing: seq<IdText>,
    errorKind: string)

  function Serve(t: Table, recs: seq<Rec>, error: Option<ProviderError>, listUp: bool): Served {
    if error.Some? then Served(Some(ProviderFailed(error.value)), [], [], [], [], ErrorKind(error.value))
    else if recs == [] then Served(None, [], [], [], [], "")
    else if ParsedIds(recs) != [] && !listUp then
      Served(Some(ProjectionFailed), [], [], recs, IdsOf(Invalid(recs)), "projection_error")
    else Served(None, Items(t, recs), Missing(t, recs), recs, IdsOf(Missing(t, recs)), "")
  }

  /** The response carries exactly the outcome, partial exactly when something is missing. */
  ghost predicate Responds(resp: FeedResponse, served: Served, now: Time)
    reads set k | 0 <= k < |resp.items| :: resp.items[k].attributes
  {
    && Shows(resp.items, served.items) && Shared(resp.items)
    && resp.missing == served.missing && (resp.partial <==> served.missing != [])
    && resp.nextCursor == "" && resp.generatedAt == now
  }

  /** The call fails exactly as the outcome says, or answers with exactly its content. */
  ghost predicate Answers(r: Result<FeedResponse, FeedError>, served: Served, now: Time)
    reads if r.Err? then {} else set k | 0 <= k < |r.value.items| :: r.value.items[k].attributes
  {
    match r
    case Err(e) => served.error == Some(e)
    case Ok(resp) => served.error.None? && Responds(resp, served, now)
  }

  lemma {:induction false} ParsedIdsHave(recs: seq<Rec>, k: nat)
    requires k < |recs| && recs[k].videoId.Canonical?
    ensures recs[k].videoId.uuid in ParsedIds(recs)
  {
    if k < |recs| - 1 {
      ParsedIdsHave(recs[..|recs| - 1], k);
    }
  }

  /** The log row of a call with this outcome. */
  function LogOf(served: Served, call: Call, providerSource: string): LogRecord {
    LogRecord(OptionalTrimmed(call.userId), ToInt32(call.limit),
              TrimSpace(FirstNonEmpty(call.source, providerSource)),
              OptionalInt32(call.latencyMs), served.logged, served.loggedMissing,
              OptionalTrimmed(served.errorKind), call.now)
  }

  predicate SomeParses(recs: seq<Rec>) {
    exists i :: 0 <= i < |recs| && !recs[i].videoId.Unparsable?
  }

  lemma {:induction false} NothingToList(recs: seq<Rec>)
    ensures ParsedIds(recs) != [] <==> SomeParses(recs)
  {
    if recs != [] {
      var n := |recs| - 1;
      NothingToList(recs[..n]);
      assert forall i :: 0 <= i < n ==> recs[..n][i] == recs[i];
      if SomeParses(recs) && ParsedIds(recs[..n]) == [] {
        assert !SomeParses(recs[..n]);
        assert !recs[n].videoId.Unparsable?;
      }
      if ParsedIds(recs) != [] && ParsedIds(recs[..n]) == [] {
        assert !recs[n].videoId.Unparsable?;
      }
    }
  }

  /** The unparsable ids, in the order of the recommendations. */
  function UnparsableIds(recs: seq<Rec>): seq<IdText> {
    if recs == [] then []
    else if recs[0].videoId.Unparsable? then [recs[0].videoId] + UnparsableIds(recs[1..])
    else UnparsableIds(recs[1..])
  }

  /** The ids that are not the canonical text of a stored row, in the order of the recommendations. */
  function UncardedIds(t: Table, recs: seq<Rec>): seq<IdText> {
    if recs == [] then []
    else if recs[0].videoId.Canonical? && recs[0].videoId.uuid in t then UncardedIds(t, recs[1..])
    else [recs[0].videoId] + UncardedIds(t, recs[1..])
  }

  lemma {:induction false} UnparsableIdsSnoc(recs: seq<Rec>, last: Rec)
    ensures UnparsableIds(recs + [last])
            == if last.videoId.Unparsable? then UnparsableIds(recs) + [last.videoId] else UnparsableIds(recs)
  {
    var all := recs + [last];
    if recs == [] {
      assert all[0] == last && all[1..] == [];
    } else {
      assert all[0] == recs[0] && all[1..] == recs[1..] + [last];
      UnparsableIdsSnoc(recs[1..], last);
    }
  }

  lemma {:induction false} UncardedIdsSnoc(t: Table, recs: seq<Rec>, last: Rec)
    ensures UncardedIds(t, recs + [last])
            == if Hydrates(t, last) then UncardedIds(t, recs) else UncardedIds(t, recs) + [last.videoId]
  {
    var all := recs + [last];
    if recs == [] {
      assert all[0] == last && all[1..] == [];
    } else {
      assert all[0] == recs[0] && all[1..] == recs[1..] + [last];
      UncardedIdsSnoc(t, recs[1..], last);
    }
  }

  lemma IdsOfSnoc(ms: seq<MissingProjection>, m: MissingProjection)
    ensures IdsOf(ms + [m]) == IdsOf(ms) + [m.videoId]
  {
  }

  /** The first loop lists what it misses in the order of the recommendations. */
  lemma {:induction false} InvalidInOrder(recs: seq<Rec>)
    ensures IdsOf(Invalid(recs)) == UnparsableIds(recs)
  {
    if recs != [] {
      var front, last := recs[..|recs| - 1], recs[|recs| - 1];
      InvalidInOrder(front);
      UnparsableIdsSnoc(front, last);
      IdsOfSnoc(Invalid(front), MissingProjection(last.videoId, INVALID_ID));
      assert recs == front + [last];
    }
  }

  /** So does the second. */
  lemma {:induction false} UnhydratedInOrder(t: Table, recs: seq<Rec>)
    ensures IdsOf(Unhydrated(t, recs)) == UncardedIds(t, recs)
  {
    if recs != [] {
      var front, last := recs[..|recs| - 1], recs[|recs| - 1];
      UnhydratedInOrder(t, front);
      UncardedIdsSnoc(t, front, last);
      IdsOfSnoc(Unhydrated(t, front), MissingProjection(last.videoId, NO_PROJECTION));
      assert recs == front + [last];
    }
  }

  /** Each loop gives its own reason. */
  lemma {:induction false} ReasonsAre(t: Table, recs: seq<Rec>)
    ensures forall k :: 0 <= k < |Invalid(recs)| ==> Invalid(recs)[k].reason == "invalid video id"
    ensures forall k :: 0 <= k < |Unhydrated(t, recs)| ==> Unhydrated(t, recs)[k].reason == "projection missing"
  {
    if recs != [] {
      ReasonsAre(t, recs[..|recs| - 1]);
    }
  }

  /** The missing entries: unparsable ids first, then ids without a card, each in order and with its reason. */
  predicate ListsMissing(missing: seq<MissingProjection>, t: Table, recs: seq<Rec>) {
    && IdsOf(missing) == UnparsableIds(recs) + UncardedIds(t, recs)
    && forall k :: 0 <= k < |missing| ==>
         missing[k].reason == if k < |UnparsableIds(recs)| then "invalid video id" else "projection missing"
  }

  lemma MissingInOrder(t: Table, recs: seq<Rec>)
    ensures ListsMissing(Missing(t, recs), t, recs)
  {
    InvalidInOrder(recs);
    UnhydratedInOrder(t, recs);
    ReasonsAre(t, recs);
    assert |Invalid(recs)| == |UnparsableIds(recs)|;
  }

  /** The call fails with the provider, or when the batch query is needed and fails. */
  predicate Fails(recs: seq<Rec>, error: Option<ProviderError>, listUp: bool) {
    error.Some? || (!listUp && SomeParses(recs))
  }

  lemma ServeFails(t: Table, recs: seq<Rec>, error: Option<ProviderError>, listUp: bool)
    ensures Serve(t, recs, error, listUp).error.Some? <==> Fails(recs, error, listUp)
  {
    NothingToList(recs);
  }

  /** What the caller gets, over the content of the provider's list. */
  ghost predicate AnswersCall(r: Result<FeedResponse, FeedError>, t: Table, recs: seq<Rec>,
                              error: Option<ProviderError>, listUp: bool, now: Time)
  {
    match r
    case Err(e) =>
      Fails(recs, error, listUp) && e == (if error.Some? then ProviderFailed(error.value) else ProjectionFailed)
    case Ok(resp) =>
      && !Fails(recs, error, listUp) && resp.generatedAt == now && resp.nextCursor == ""
      && ListsMissing(resp.missing, t, recs) && (resp.partial <==> resp.missing != [])
      && forall k :: 0 <= k < |resp.items| ==>
           && resp.items[k].videoId.Canonical? && resp.items[k].videoId.uuid in t
           && DisplaysRow(resp.items[k], t[resp.items[k].videoId.uuid])
  }

  lemma AnswerTells(r: Result<FeedResponse, FeedError>, t: Table, recs: seq<Rec>, error: Option<ProviderError>,
                    listUp: bool, now: Time)
    requires Answers(r, Serve(t, recs, error, listUp), now)
    ensures AnswersCall(r, t, recs, error, listUp, now)
  {
    ServeFails(t, recs, error, listUp);
    if r.Ok? {
      MissingInOrder(t, recs);
      forall k | 0 <= k < |r.value.items|
        ensures && r.value.items[k].videoId.Canonical? && r.value.items[k].videoId.uuid in t
                && DisplaysRow(r.value.items[k], t[r.value.items[k].videoId.uuid])
      {
        assert View(r.value.items[k]) == Serve(t, recs, error, listUp).items[k];
        ItemsDisplayRows(t, recs, k);
      }
    }
  }

  /** What the log says of the request: who asked, for how many, whose recommendations, how fast, when. */
  predicate LogsCall(entry: LogEntry, userId: string, limit: int, reply: ProviderReply, providerSource: string,
                     elapsed: int, now: Time)
  {
    && (if AllSpace(userId) then entry.userId == None else entry.userId == Some(TrimSpace(userId)))
    && entry.requestLimit == (if limit <= 0 then 10 else if limit > 100 then 100 else limit)
    && entry.source == TrimSpace(if reply.result.Some? && !AllSpace(reply.result.value.source)
                                 then reply.result.value.source else providerSource)
    && entry.latencyMs == LoggedLatency(elapsed)
    && entry.generatedAt == now
  }

  /**
   * What the log says of the outcome: the provider's whole list whenever there was one, and the ids that
   * were known to be missing, which on a failing query are the unparsable ones.
   */
  ghost predicate LogsOutcome(entry: LogEntry, t: Table, recs: seq<Rec>, error: Option<ProviderError>, listUp: bool)
    reads set k | 0 <= k < |entry.recommended| :: entry.recommended[k].metadata
  {
    match error
    case Some(e) =>
      && entry.recommended == [] && entry.missing == []
      && entry.errorKind == Some(if e.Unavailable? then "recommendation_unavailable" else "unknown_error")
    case None =>
      && Reads(entry.recommended, recs)
      && if Fails(recs, error, listUp)
         then entry.missing == UnparsableIds(recs) && entry.errorKind == Some("projection_error")
         else entry.missing == UnparsableIds(recs) + UncardedIds(t, recs) && entry.errorKind == None
  }

  lemma TrimmedIs(value: string)
    ensures OptionalTrimmed(value) == if AllSpace(value) then None else Some(TrimSpace(value))
  {
    NothingLeftIff(value);
  }

  lemma SourceIs(reply: ProviderReply, providerSource: string)
    ensures TrimSpace(FirstNonEmpty(SourceOf(reply, providerSource), providerSource))
            == TrimSpace(if reply.result.Some? && !AllSpace(reply.result.value.source)
                         then reply.result.value.source else providerSource)
  {
    NothingLeftIff(SourceOf(reply, providerSource));
    NothingLeftIff(providerSource);
    if reply.result.Some? {
      NothingLeftIff(reply.result.value.source);
    }
  }

  /** What `Serve` logs. */
  lemma ServeLogs(t: Table, recs: seq<Rec>, error: Option<ProviderError>, listUp: bool)
    ensures var served := Serve(t, recs, error, listUp);
            && served.logged == (if error.Some? then [] else recs)
            && served.loggedMissing == (if error.Some? then []
                                        else if Fails(recs, error, listUp) then UnparsableIds(recs)
                                        else UnparsableIds(recs) + UncardedIds(t, recs))
            && OptionalTrimmed(served.errorKind)
               == (match error
                   case Some(Unavailable) => Some("recommendation_unavailable")
                   case Some(OtherError) => Some("unknown_error")
                   case None => if Fails(recs, error, listUp) then Some("projection_error") else None)
  {
    ServeFails(t, recs, error, listUp);
    InvalidInOrder(recs);
    MissingInOrder(t, recs);
  }

  lemma EntryTells(entry: LogEntry, t: Table, recs: seq<Rec>, reply: ProviderReply, listUp: bool, userId: string,
                   limit: int, elapsed: int, now: Time, providerSource: string)
    requires var call := Call(userId, ClampLimit(limit), SourceOf(reply, providerSource), MillisOrZero(elapsed), now);
             Contains(entry, LogOf(Serve(t, recs, reply.error, listUp), call, providerSource))
    ensures LogsCall(entry, userId, limit, reply, providerSource, elapsed, now)
    ensures LogsOutcome(entry, t, recs, reply.error, listUp)
  {
    ServeLogs(t, recs, reply.error, listUp);
    TrimmedIs(userId);
    SourceIs(reply, providerSource);
  }
}
