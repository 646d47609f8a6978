# Feed service: the projection, the feed and the user-info header

This project models the Go service that keeps a read-only projection of catalog
videos and serves a feed from it, and proves what the service promises about them.

* **The projection.** Catalog events (Created, Updated, MediaReady,
  VisibilityChanged, Deleted) are delivered at least once, ordered per video, to
  several workers. `CatalogEvents.Step` is the specification of one delivery;
  `CatalogInbox.EventHandler` is the handler, method by method, over the mutable
  table of `ProjectionRepository`, proved to do exactly `Step`. The theorems are
  about single answers (`DeliveryOutcomes`: exactly when a delivery succeeds,
  and which error comes otherwise) and whole runs: `DeliveryRuns` (locality,
  commutation, reachable rows),
  `VersionGuard` (which deliveries the guard lets through, and the stored
  version), `LastWriter` (every field, and when a video is ready), `AtLeastOnce`
  (exactly which schedules equal delivering each event once, and the consumer as a
  whole), `Workers` (interleaved load and write steps) and `Overlaps` (exactly when
  two overlapping handlers of one video do no harm).
* **The feed.** `FeedService` models the use case with its heap: cards mutated
  through an index, copies of a card sharing one attributes map, an audit entry
  that must share nothing. `FeedOutcome` says what a call answers and logs, over
  the recommendations themselves; `FeedOfRuns` joins the two halves, from delivered
  events to the columns of a card. `FeedModel` holds the pure hydration these loops are
  proved against, `FeedTheorems` what that hydration means. `MockProvider` is
  the provider that picks ready videos from the same table, `FeedHandler` the
  copy sent to the client, `RecommendationLog` the audit entry.
* **The header.** `Base64` and `UserInfo` model the chain of three base64
  decoders, trimming (`Text`) and the precedence of the claims.

Data is modelled as follows. An instant is an integer counted from Go's zero
time; a timestamp on the wire is `Absent`, `Malformed` or `At(t)`. The text of an
id is `Canonical(u)`, `OtherForm(u)` (text that parses to `u` but that `String()`
does not print) or `Unparsable`; for the canonical form see section 4 of RFC 9562.
Database failures, the clock, the time a provider call takes, and the JSON parser
are parameters; the order of a batch query and of `random()`, the order in which a
Go map is ranged over, and scores are arbitrary choices. Columns go through the
nullable form on the way in and out. Base64 follows sections 3.2, 4 and 5 of
RFC 4648 with the leniency of Go's decoder (line breaks skipped, spare bits of the
last quantum ignored).

## Where the code differs from its documents

The model follows the code. Each of these is stated as a lemma or by the model:

* ARCHITECTURE.md:186 and docs/pubsub-conventions.md:381-394 have the projection
  written only by a newer version. Created overwrites with no comparison, an
  effective version of 0 passes the guard and is stored, and the upsert has no
  version condition. The run theorems therefore speak of *resets*
  (`VersionGuard.Resets`) and say exactly what they change;
  `Overlaps.OverlapIsSerialIff` says exactly what overlapping handlers of one video
  cost, and `Overlaps.OverlapCanLoseAField` loses a description for good.
* A repeated event is meant to have no effect (docs/pubsub-conventions.md:339-379).
  For the handler alone this fails for Created
  (`AtLeastOnce.RepeatedCreatedIsHarmful`), and for immediate redelivery it fails
  exactly when the event writes past the guard and takes the clock's time
  (`DeliveryRuns.ImmediateRedelivery`, with the input `DeliveryRuns.RedeliveryCanRestamp`).
* An `occurred_at` that spells the zero time takes the clock just as an empty one
  does, so "the event carries its own time" excludes it (`DeliveryRuns.ClockFree`).
* `millisOrZero` means to saturate at the greatest int32, but it compares
  milliseconds with nanoseconds: the branch is never taken and longer times wrap
  (`RecommendationLog.LatencyIsExact`, with the inputs `RecommendationLog.LongLatenciesWrap`).
* An unparsable id is reported missing twice (`FeedTheorems.Accounting`,
  `FeedTheorems.OneUnparsableIsReportedTwice`), and an id in a non-canonical form is fetched but never hydrated
  (`FeedTheorems.PartialIffSomethingMissing`). The exclusion of stale versions
  that ARCHITECTURE.md:164 describes is not in the code.
* ARCHITECTURE.md:162 gives the mock provider score 0; the code draws one from [0, 1).
* The unpadded standard base64 alphabet is in none of the three decoders;
  `UserInfo.RawStandardIsReadBackIff` says exactly when such text is still read.

## Model

| member | source | states |
|---|---|---|
| ProjectionRepository.FeedVideoProjectionRepository.Upsert | internal/repositories/feed_video_projection_repo.go:49-72 | the keyed row is inserted or replaced whole, with no version condition, every other row kept; a failing call changes nothing; nullable columns read back what was written |
| ProjectionRepository.FeedVideoProjectionRepository.Get | internal/repositories/feed_video_projection_repo.go:75-85 | the stored row under its canonical id text, or the distinct "no rows" error |
| ProjectionRepository.FeedVideoProjectionRepository.SelectAny | internal/repositories/feeddb/videos_projection.sql:56-70 | exactly the wanted ids that are stored, each once even if asked for twice, in any order |
| ProjectionRepository.FeedVideoProjectionRepository.ListByIDs | internal/repositories/feed_video_projection_repo.go:88-105 | a complete listing without repetition of the rows stored for the ids; no ids, no query and no error |
| ProjectionRepository.FeedVideoProjectionRepository.ListRandomIDs | internal/repositories/feed_video_projection_repo.go:108-123 | min(limit, number of rows with status "ready") distinct ids of such rows; a limit that is negative as an int32 is an error |
| Projection.ReadyIsTheWord | internal/repositories/feeddb/videos_projection.sql:75-75 | a row is ready iff its status is stored as "ready" |
| CatalogInbox.EventHandler.LoadCurrent | internal/tasks/catalog_inbox/handler.go:288-297 | "no rows" is an absent row, any other failure an error |
| CatalogInbox.EventHandler.HandleCreated | internal/tasks/catalog_inbox/handler.go:90-115 | new table and result are those of the specification `Settle`: overwrite without loading |
| CatalogInbox.EventHandler.HandleUpdated | internal/tasks/catalog_inbox/handler.go:117-161 | new table and result are those of `Settle`: load, skip without a row or when stale, merge, write |
| CatalogInbox.EventHandler.HandleMediaReady | internal/tasks/catalog_inbox/handler.go:163-204 | the same for MediaReady, with every error path |
| CatalogInbox.EventHandler.HandleVisibilityChanged | internal/tasks/catalog_inbox/handler.go:206-247 | the same for VisibilityChanged, with every error path |
| CatalogInbox.EventHandler.HandleDeleted | internal/tasks/catalog_inbox/handler.go:249-286 | the same for Deleted, which needs no payload |
| CatalogInbox.EventHandler.Handle | internal/tasks/catalog_inbox/handler.go:35-88 | the imperative handler, over the mutable table and for every event, database failure and clock, is exactly one `Step` |
| DeliveryOutcomes.TargetIs | internal/tasks/catalog_inbox/handler.go:40-47 | which video a delivery is about: the event's own id in any readable form, and the inbox row's only when the event's is empty |
| DeliveryOutcomes.TimeIs | internal/tasks/catalog_inbox/handler.go:49-58 | which time is stamped: the event's own, or the clock for none and for the zero time; a malformed one is an error |
| DeliveryOutcomes.VersionIs | internal/tasks/catalog_inbox/handler.go:258-261 | the version the guard sees is the positive one of the event's own payload, else the envelope's |
| DeliveryOutcomes.StatusIs | internal/tasks/catalog_inbox/handler.go:35-286 | a delivery succeeds iff id and time are readable, the payload is there, and no load or upsert it comes to fails; each error has its exact condition |
| DeliveryOutcomes.OnlyWritesChangeTheTable | internal/tasks/catalog_inbox/handler.go:111-113 | an error, and a success that the guard kept from writing, leave the table as it was |
| DeliveryOutcomes.NothingToDoSucceeds | internal/tasks/catalog_inbox/handler.go:127-136 | a stale event, one for a video without a row and one of an unsupported kind succeed and change nothing, as long as the load they need does |
| DeliveryRuns.StepIsLocal | internal/tasks/catalog_inbox/handler.go:40-75 | a delivery changes at most the row of its own video, and as a function of that row alone |
| DeliveryRuns.RunIsPerVideo | internal/tasks/catalog_inbox/handler.go:35-88 | after any schedule a video's row is the run of that video's own deliveries |
| DeliveryRuns.PerVideoOrderIsEnough | internal/tasks/catalog_inbox/handler.go:40-75 | schedules that agree video by video, each event carrying its own time, end in the same table whatever the clocks show |
| DeliveryRuns.DifferentVideosCommute | internal/repositories/feeddb/videos_projection.sql:28-38 | deliveries for different videos commute |
| DeliveryRuns.KeysOnlyGrow | internal/repositories/feeddb/videos_projection.sql:1-38 | a row exists after a run iff it did before or a Created for it was handled |
| DeliveryRuns.ReachableRowsOk | internal/tasks/catalog_inbox/handler.go:97-109 | every reachable row has a non-empty title, no empty status or visibility, no zero publish time (at the precision of the model) |
| DeliveryRuns.NarrowEventsKeepTheRest | internal/tasks/catalog_inbox/handler.go:186-198 | in every reachable table MediaReady, VisibilityChanged and Deleted leave each field they do not own, and every other row, exactly as it was |
| DeliveryRuns.ImmediateRedelivery | internal/tasks/catalog_inbox/handler.go:90-286 | on any table, redelivering a handled event changes nothing iff it does not write past the guard, or carries its own time, or the clock shows the same time |
| DeliveryRuns.RedeliveryCanRestamp | internal/tasks/catalog_inbox/handler.go:56-58 | a Deleted with version 0 and no time, delivered again a moment later, stamps the row again |
| VersionGuard.StepIsGuardedApply | internal/tasks/catalog_inbox/handler.go:310-322 | one delivery is the unguarded merge if the guard passes and nothing otherwise |
| VersionGuard.StoredVersionIsHighWater | internal/tasks/catalog_inbox/handler.go:132-136 | over any schedule at all, the stored version is the maximum of the versions that landed since the last reset |
| VersionGuard.RecordsPass | internal/tasks/catalog_inbox/handler.go:317-322 | the guard lets through exactly the records: resets and versions above everything that still counts |
| VersionGuard.GuardedRunIsFoldOfRecords | internal/tasks/catalog_inbox/handler.go:117-322 | the guarded run of any schedule equals the unguarded fold over its records alone |
| VersionGuard.RecordsWithoutResets | internal/tasks/catalog_inbox/handler.go:317-322 | without resets the records are exactly the left-to-right strict version maxima above the start |
| VersionGuard.OnlyResetsLowerTheVersion | internal/tasks/catalog_inbox/handler.go:310-322 | a step lowers the stored version iff it is a Created or has version 0, and is below it |
| VersionGuard.VersionIsMaximum | internal/tasks/catalog_inbox/handler.go:258-265 | without resets the stored version is the maximum of the start and everything that landed |
| VersionGuard.LateRedeliveryIsNoOp | internal/tasks/catalog_inbox/handler.go:132-136 | an event that landed under the guard does nothing when delivered again, at any time before the next reset |
| LastWriter.LastWriteIsLatest | internal/tasks/catalog_inbox/handler.go:350-386 | the last-write value is that of the latest delivery that sets the field, and the start when none does |
| LastWriter.LastWriterWins | internal/tasks/catalog_inbox/handler.go:138-155 | after any schedule each of the ten columns holds the value of the latest record that effectively sets it |
| LastWriter.ReadyIffLatestStatusIsReady | internal/tasks/catalog_inbox/handler.go:358-367 | a row is ready after a schedule iff the latest record that sets the status sets it to ready |
| LastWriter.DeletedStaysOut | internal/tasks/catalog_inbox/handler.go:249-286 | after an applied Deleted the video is among the ready ids iff the latest status that an applied delivery set since is ready, and that delivery carries it itself; while no step lowers the stored version, it is a Created, has version 0 or is above the delete, and every other delivery at or below the delete leaves the row alone |
| LastWriter.StaleIsInvisible | internal/tasks/catalog_inbox/handler.go:317-322 | while no step lowers the stored version, dropping every delivery at or below a version the row has reached, but for resets, changes nothing |
| LastWriter.StaleIsRefused | internal/tasks/catalog_inbox/handler.go:132-136 | while no step lowers the stored version, a non-Created delivery with a non-zero version at or below the first leaves the row as it is |
| LastWriter.RecordPassed | internal/tasks/catalog_inbox/handler.go:317-322 | a record of any schedule is a delivery that the guard let through at its moment |
| LastWriter.WithoutResetsNothingLowers | internal/tasks/catalog_inbox/handler.go:310-322 | a schedule without resets lowers no stored version |
| AtLeastOnce.OutcomeIsReplay | internal/tasks/catalog_inbox/handler.go:35-286 | the guarded run over any attempts at a history replays, unguarded, exactly the events of supported kinds that came in order since the last Created |
| AtLeastOnce.ProgressMembers | internal/tasks/catalog_inbox/handler.go:317-322 | the events so replayed are exactly those handled, after the last Created, before any of their successors |
| AtLeastOnce.CompleteIsHarmless | internal/tasks/catalog_inbox/handler.go:35-286 | for one history only the events of supported kinds have to come, and in order among themselves, for a schedule of attempts to equal delivering each event once |
| AtLeastOnce.AtLeastOnceIffComplete | internal/tasks/catalog_inbox/handler.go:35-286 | a schedule of attempts, with failures and repeats, equals delivering each event once for every history iff after the last Created each later event is first handled in source order |
| AtLeastOnce.InterleavedAtLeastOnceIsExactlyOnce | internal/tasks/catalog_inbox/handler.go:35-297 | with at most one handler in flight per video, any interleaving of workers, failures and other deliveries leaves a video the row of handling each of its events once, if what was written for it is complete for its history |
| AtLeastOnce.RepeatedCreatedIsHarmful | internal/tasks/catalog_inbox/handler.go:90-115 | no schedule that ends in a Created is equal to exactly-once once the history has a second event |
| Workers.NextIsSerial | internal/tasks/catalog_inbox/handler.go:123-157 | a write based on a current row is an atomic step and leaves the rows other handlers loaded current |
| Workers.InterleavingsAreSerial | internal/tasks/catalog_inbox/handler.go:123-157 | with at most one handler in flight per video, every interleaving of any number of workers ends as the sequential run in the order of the writes |
| Workers.ExecKeepsKeys | internal/repositories/feeddb/videos_projection.sql:28-38 | no interleaving, exclusive or not, removes a row |
| Overlaps.OverlapIsSerialIff | internal/repositories/feeddb/videos_projection.sql:28-38 | two overlapping handlers of one video, of any kinds, from any row or none, leave the serial table iff a condition on the row and the two events holds: the second hides all the first changed, or comes to the same row, or would change nothing, according to which of them pass the guard |
| Overlaps.OverlapLosesTheFirst | internal/repositories/feeddb/videos_projection.sql:28-38 | when both events pass the guard the second write erases the first, and the version agrees with the serial one iff the second is a reset or is not older |
| Overlaps.OverlapCanLoseAField | internal/tasks/catalog_inbox/handler.go:123-157 | two overlapping Updated events of versions 2 and 3: the description the first sets is lost for good |
| FeedModel.CopyInto | internal/models/vo/feed_factory.go:42-47 | copying entry by entry in any order writes every entry of the source but the skipped ones over the destination |
| FeedService.FeedItemFromProjection | internal/models/vo/feed_factory.go:6-24 | a card that shows the row column by column (absent as empty or 0) with an empty map of its own |
| FeedModel.ItemsDisplayRows | internal/services/feed_service.go:114-126 | every card served is that of a stored row, column by column, under the id and with the reason and score of its recommendation |
| FeedOfRuns.RowIsLatestWrites | internal/tasks/catalog_inbox/handler.go:117-322 | after any schedule of deliveries every column of a stored row is the latest write among the video's records |
| FeedOfRuns.CardsShowLatestWrites | internal/services/feed_service.go:98-133 | end to end: after any schedule of deliveries each column of each served card is the latest write of it among the video's records |
| FeedService.ItemCell.ApplyRecommendation | internal/models/vo/feed_factory.go:27-48 | reason and score replaced, label replaced by a non-empty one only, metadata without the label written over the same shared map |
| FeedService.ResolveIds | internal/services/feed_service.go:86-97 | the ids that parse, and the unparsable ones as missing, both in order |
| FeedService.BuildIndex | internal/services/feed_service.go:114-120 | one card per row under its canonical text, each with a fresh map no other card has |
| FeedService.Hydrate | internal/services/feed_service.go:122-131 | merging through pointers while copying out keeps every card at the merge of its occurrences so far and every copy at its own occurrence, and never writes the provider's maps |
| FeedService.CopiesShowItems | internal/services/feed_service.go:122-133 | seen through the shared maps after the loop, the copies are the pure hydration, and two copies share a map iff they are of one video |
| FeedService.FeedService.LogRecommendation | internal/services/feed_service.go:158-176 | with a log repository exactly one insert is attempted, of an entry with the call's content and maps of its own; a failing insert is ignored |
| FeedService.FeedService.ServeRecommendations | internal/services/feed_service.go:85-144 | copy for the log, parse, hydrate, respond or fail, with exactly one log attempt on either path |
| FeedService.FeedService.GetFeed | internal/services/feed_service.go:42-145 | for every reply, table and failure: the call fails iff the provider does or a needed batch query does; the cards show the stored rows and the missing list is the unparsable ids, then those without a card, in order; one log insert is attempted, whose recommended items are the provider's list whenever there was one, with the ids then known missing, the clamped limit, the source and the error kind; the logged maps are shared neither with the provider nor with the response |
| FeedOutcome.ServeLogs | internal/services/feed_service.go:57-143 | what is logged over the recommendations themselves: the whole list on success, empty reply and projection error alike; the unparsable ids on the latter, all missing ids otherwise; the error kind of each path |
| FeedOutcome.ServeFails | internal/services/feed_service.go:57-113 | the call fails iff the provider fails, or some id parses and the batch query fails |
| FeedOutcome.MissingInOrder | internal/services/feed_service.go:87-131 | the missing list is the unparsable ids and then the ids without a card, each in the order of the recommendations and with its reason |
| FeedOutcome.SourceIs | internal/services/feed_service.go:205-234 | the logged source is the reply's if that is more than white space, else the provider's, trimmed |
| FeedOutcome.TrimmedIs | internal/models/po/recommendation_log_builder.go:74-80 | a blank text is logged as absent, any other trimmed |
| FeedOutcome.AnswerTells | internal/services/feed_service.go:132-144 | every answer that matches the pure outcome fails, lists what is missing and shows the stored rows exactly as the recommendations and the table say |
| FeedOutcome.EntryTells | internal/services/feed_service.go:158-176 | every entry that matches the pure outcome tells the request and its result in these terms |
| FeedTheorems.Accounting | internal/services/feed_service.go:85-134 | items plus missing entries are the recommendations plus the unparsable ids |
| FeedTheorems.ReportedOnceIffAllParse | internal/services/feed_service.go:89-131 | every recommendation is reported exactly once iff every id parses |
| FeedTheorems.OneUnparsableIsReportedTwice | internal/services/feed_service.go:89-131 | one recommendation with an unparsable id is missing twice, for two reasons |
| FeedTheorems.PartialIffSomethingMissing | internal/services/feed_service.go:132-143 | something is missing iff some recommendation is not the canonical text of a stored row; the logged missing ids are those of the missing list, in order |
| FeedTheorems.HydrationIsMapFilter | internal/services/feed_service.go:85-134 | when no id repeats the loops over shared cards compute a plain map-filter |
| FeedTheorems.AttributesAreLastWrites | internal/models/vo/feed_factory.go:42-47 | key by key, the attributes all copies end with are the last write of any occurrence that has the key |
| FeedTheorems.LabelIsLatest | internal/models/vo/feed_factory.go:36-38 | the label is the latest non-empty one among the occurrences so far |
| FeedTheorems.DuplicatesShareAttributes | internal/services/feed_service.go:123-127 | each copy keeps its own reason and score, its label is the latest non-empty one among the occurrences up to its own, and its attributes are, key by key, the last write of any occurrence, the same for all copies of one video |
| FeedTheorems.MockFeedIsNeverPartial | internal/services/mock_recommendation_provider.go:37-59 | whatever workers do between the pick and the batch query, every picked id is hydrated in order and once from the row as it is then, and the number of items is min(clamped limit, ready rows at the pick) |
| MockProvider.MockRecommendationProvider.RecommendAll | internal/services/mock_recommendation_provider.go:47-57 | one recommendation per picked id, in order, by its canonical text, advancing the random source once each |
| MockProvider.MockRecommendationProvider.GetFeed | internal/services/mock_recommendation_provider.go:37-59 | a random pick of ready ids as recommendations, or the unavailable error on any repository failure |
| FeedHandler.ToProtoFeedItem | internal/controllers/feed_handler.go:101-124 | the client's item shows what the service's item shows, with exactly the publish times that are not zero, in a map of its own |
| FeedHandler.ToProtoFeedResponse | internal/controllers/feed_handler.go:76-99 | item by item the same content, and no two client items share a map, not even copies of one card |
| RecommendationLog.CloneStringMap | internal/services/feed_service.go:194-203 | a fresh map with the same content; nil exactly when there is none |
| RecommendationLog.CloneItems | internal/models/po/recommendation_log_builder.go:43-63 | same items in the same order, no map shared with anything older (nil and empty metadata identified) |
| RecommendationLog.NewFeedRecommendationLog | internal/models/po/recommendation_log_builder.go:21-41 | the entry's content for every input: trimmed texts, narrowed limit, positive latency only, the clock for a zero time, isolated copies |
| RecommendationLog.RecommendationLogRepository.Insert | internal/repositories/feed_recommendation_log_repo.go:36-77 | the content of the entry at that moment is stored, or nothing when the insert fails |
| RecommendationLog.LatencyIsExact | internal/services/feed_service.go:214-224 | for every int64 duration the logged latency is absent or a positive int32, and is the whole milliseconds iff these are one; the saturating branch is unreachable |
| RecommendationLog.LongLatenciesWrap | internal/services/feed_service.go:214-224 | 2^31 milliseconds are not logged, 2^32 + 5 are logged as 5 |
| Text.TrimRemovesTheSurroundings | internal/metadata/metadata_helpers.go:67-67 | trimming removes exactly the surrounding white space |
| Text.NothingLeftIff | internal/metadata/metadata_helpers.go:68-70 | nothing is left of a text iff it is all white space |
| Text.AsciiSpaces | internal/metadata/metadata_helpers.go:67-67 | which ASCII characters are white space |
| Base64.DecodeEncode | internal/metadata/metadata_helpers.go:92-96 | each encoding reads back its own text |
| Base64.Unambiguous | internal/metadata/metadata_helpers.go:91-106 | any two of the encodings that accept a text read the same bytes from it |
| Base64.AcceptedIsText | internal/metadata/metadata_helpers.go:92-96 | accepted text consists of the alphabet and padding |
| Base64.AcceptedFillsQuanta | internal/metadata/metadata_helpers.go:92-96 | accepted text with padding fills whole quanta |
| Base64.DigitsAreTheAlphabet | internal/metadata/metadata_helpers.go:92-96 | the digits are the standard's two alphabets |
| Base64.QuantumIsBigEndian | internal/metadata/metadata_helpers.go:92-96 | four digits and three bytes are one number, most significant first |
| Base64.LastQuantumIsZeroFilled | internal/metadata/metadata_helpers.go:92-96 | one or two last bytes are written as if zeros followed, with two or one padding characters when padded |
| Base64.LineBreaksAreInvisible | internal/metadata/metadata_helpers.go:92-96 | a line break anywhere in a text changes nothing |
| UserInfo.DecodeUserInfo | internal/metadata/metadata_helpers.go:91-106 | the loop answers what any encoding but unpadded standard reads, in whatever order they are tried, and fails iff all of them refuse |
| UserInfo.RefusedIffAllRefuse | internal/metadata/metadata_helpers.go:91-106 | a text is refused iff raw-URL, padded-URL and standard decoding all refuse it |
| UserInfo.FallbackIsUnambiguous | internal/metadata/metadata_helpers.go:91-106 | text made by any encoding other than unpadded standard, even folded over lines, yields the original bytes and nothing else |
| UserInfo.DecodesIsFunctional | internal/metadata/metadata_helpers.go:91-106 | at most one answer is possible for a header |
| UserInfo.RawStandardIsReadBackIff | internal/metadata/metadata_helpers.go:92-96 | unpadded standard text is read back iff its length needs no padding or it uses only digits common to both alphabets, and is refused otherwise |
| UserInfo.RawStandardCanFail | internal/metadata/metadata_helpers.go:92-96 | the one byte 0xfb in that form is refused |
| UserInfo.FirstClaimIsEarliest | internal/metadata/metadata_helpers.go:79-88 | the first claim in the order of precedence that is text and not blank wins |
| UserInfo.ExtractUserIDFromUserInfo | internal/metadata/metadata_helpers.go:66-89 | nothing for a blank header, else the claim found in what the decoders read, with both error paths |
| UserInfo.HeaderYieldsItsClaims | internal/metadata/metadata_helpers.go:66-89 | through any encoding but unpadded standard and any surrounding white space, the answer is as if the claims had been read directly |
| UserInfo.SubjectComesFirst | internal/metadata/metadata_helpers.go:79-88 | the user is the claim "sub" if that has text that is not all white space, else "user_id", else "uid", else none, as the text stands |
| UserInfo.OtherHeaders | internal/metadata/metadata_helpers.go:67-74 | a blank header is no error, text that no decoder reads is one |
| UserInfo.BadClaims | internal/metadata/metadata_helpers.go:75-78 | claims that do not parse are an error, in any of the encodings |

## Left out

- The inbox runner, the Pub/Sub subscriber, the transaction manager and the inbox
  store are not part of this model: a run is any schedule of deliveries, atomic or
  in two steps, and a failing handler writes nothing.
- De-duplication by event id: the store that inserts it is not part of this model,
  and no theorem relies on it.
- Handlers of one video that overlap: the code takes no lock, so serialisability
  is claimed with at most one handler in flight per video, and beyond that only for
  two handlers, exactly (`Overlaps.OverlapIsSerialIff`).
- Protobuf, JSON, pgx and UUID internals beyond the forms named above; the
  microsecond precision of `timestamptz` (an instant in the first microsecond after
  the zero time would be stored as zero), and the time zone of an instant.
- The order of `random()` and the values of scores: arbitrary, and scores are
  reals (they are copied, never computed with).
- JSON marshalling failures of a log entry, and reading logs back.
- Nil receivers, nil records and a nil response, which only add one-branch members;
  a provider that is nil (the "unknown" source).
- The 64-bit width of versions and durations in micros: they are compared and
  copied, never computed with, so they are unbounded integers.
- The service's and the log builder's copies of recommended items are the same
  loop in two places; both are `RecommendationLog.CloneItems`.
- The inline loops of `GetFeed` are methods of their own (`ResolveIds`,
  `BuildIndex`, `Hydrate`); the clock is read once per call, so a log entry's time
  is the response's also where the error path reads it again.
- The other helpers of the request metadata (`IsZero`, `UserUUID`, the context
  accessors), configuration, wiring, gRPC, JWT, timeouts, metrics and logging.
- Features that only the documents describe: cursors, ETags, other event kinds,
  the stale-version exclusion.
