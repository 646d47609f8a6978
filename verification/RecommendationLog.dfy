/** The audit log: building an isolated entry, and the repository it is inserted into. */
module RecommendationLog {
  import opened Prelude
  import opened Projection
  import opened FeedModel
  import opened Text

  const MAX_INT32 := 0x7fff_ffff
  const MAX_INT64 := 0x7fff_ffff_ffff_ffff
  const NANOS_PER_MILLI := 1_000_000

  predicate IsDuration(nanos: int) {
    -MAX_INT64 - 1 <= nanos <= MAX_INT64
  }

  /** The test compares a number of milliseconds with a number of nanoseconds. */
  predicate SaturationTest(ms: int) {
    ms > MAX_INT32 * NANOS_PER_MILLI
  }

  function MillisOrZero(nanos: int): int {
    if nanos <= 0 then 0
    else
      var ms := nanos / NANOS_PER_MILLI;
      if SaturationTest(ms) then MAX_INT32 else ToInt32(ms)
  }

  function OptionalInt32(value: int): Option<int> {
    if value <= 0 then None else Some(value)
  }

  function LoggedLatency(nanos: int): Option<int> {
    OptionalInt32(MillisOrZero(nanos))
  }

  /**
   * The logged latency of every duration: absent or a positive int32, and the whole milliseconds
   * exactly when these are a positive int32. Saturation never happens: the code behaves as if it
   * saturated only up to the limit, and where the low 32 bits happen to be the limit itself.
   */
  lemma LatencyIsExact(nanos: int)
    requires IsDuration(nanos)
    ensures LoggedLatency(nanos).Some? ==> 1 <= LoggedLatency(nanos).value <= MAX_INT32
    ensures LoggedLatency(nanos) == Some(nanos / NANOS_PER_MILLI) <==> 1 <= nanos / NANOS_PER_MILLI <= MAX_INT32
    ensures nanos > 0 ==> !SaturationTest(nanos / NANOS_PER_MILLI)
    ensures nanos > 0 ==>
      var ms := nanos / NANOS_PER_MILLI;
      (MillisOrZero(nanos) == Min(ms, MAX_INT32) <==> ms <= MAX_INT32 || ms % 0x1_0000_0000 == MAX_INT32)
  {
    if nanos > 0 {
      var ms := nanos / NANOS_PER_MILLI;
      assert ms <= MAX_INT64 / NANOS_PER_MILLI;
      assert ms % 0x1_0000_0000 == MAX_INT32 <==> ToInt32(ms) == MAX_INT32;
    }
  }

  /** 2^31 milliseconds go unlogged, and 2^32 + 5 are logged as 5. */
  lemma LongLatenciesWrap()
    ensures LoggedLatency(2_147_483_648_000_000) == None
    ensures LoggedLatency(4_294_967_301_000_000) == Some(5)
  {
  }

  /** A log row as stored, all values. */
  datatype LogRecord = LogRecord(
    userId: Option<string>,
    requestLimit: int,
    source: string,
    latencyMs: Option<int>,
    recommended: seq<Rec>,
    missing: seq<IdText>,
    errorKind: Option<string>,
    generatedAt: Time)

  /** A log entry in memory; its items hold maps. */
  datatype LogEntry = LogEntry(
    userId: Option<string>,
    requestLimit: int,
    source: string,
    latencyMs: Option<int>,
    recommended: seq<LiveRec>,
    missing: seq<IdText>,
    errorKind: Option<string>,
    generatedAt: Time)

  /** `record` is the content of entry `e` now. */
  ghost predicate Contains(e: LogEntry, record: LogRecord)
    reads set k | 0 <= k < |e.recommended| :: e.recommended[k].metadata
  {
    && record == LogRecord(e.userId, e.requestLimit, e.source, e.latencyMs, record.recommended, e.missing,
                           e.errorKind, e.generatedAt)
    && Reads(e.recommended, record.recommended)
  }

  function OptionalTrimmed(value: string): Option<string> {
    if TrimSpace(value) == "" then None else Some(TrimSpace(value))
  }

  /** The first value that is more than white space. */
  function FirstNonEmpty(a: string, b: string): string {
    if TrimSpace(a) != "" then a else if TrimSpace(b) != "" then b else ""
  }

  datatype LogParams = LogParams(
    userId: string,
    requestLimit: int,
    source: string,
    latencyMs: int,
    recommended: seq<LiveRec>,
    missing: seq<IdText>,
    errorKind: string,
    generatedAt: Time)

  /** A nil or empty map has no copy. */
  method CloneStringMap(src: StringMap?) returns (m: StringMap?)
    ensures Entries(m) == Entries(src)
    ensures m != null ==> fresh(m)
    ensures m == null <==> Entries(src) == map[]
  {
    if src == null || src.entries == map[] {
      return null;
    }
    m := new StringMap();
    CopyInto(m, src, {});
  }

  /** Copies of `src` with the same content and no map shared with anything older. */
  method CloneItems(src: seq<LiveRec>, ghost vals: seq<Rec>) returns (dst: seq<LiveRec>)
    requires Reads(src, vals)
    ensures Reads(dst, vals)
    ensures forall k :: 0 <= k < |dst| && dst[k].metadata != null ==> fresh(dst[k].metadata)
  {
    dst := [];
    for i := 0 to |src|
      invariant |dst| == i
      invariant forall k :: 0 <= k < i ==> RecValue(dst[k]) == vals[k]
      invariant forall k :: 0 <= k < i && dst[k].metadata != null ==> fresh(dst[k].metadata)
    {
      var meta := CloneStringMap(src[i].metadata);
      dst := dst + [src[i].(metadata := meta)];
    }
  }

  /** The entry for `params`: trimmed texts, copied items, the limit as an int32. */
  method NewFeedRecommendationLog(params: LogParams, now: Time, ghost vals: seq<Rec>) returns (entry: LogEntry)
    requires Reads(params.recommended, vals)
    ensures forall k :: 0 <= k < |entry.recommended| && entry.recommended[k].metadata != null ==>
              fresh(entry.recommended[k].metadata)
    ensures Contains(entry,
              LogRecord(OptionalTrimmed(params.userId), ToInt32(params.requestLimit), TrimSpace(params.source),
                        OptionalInt32(params.latencyMs), vals, params.missing, OptionalTrimmed(params.errorKind),
                        if params.generatedAt == ZERO_TIME then now else params.generatedAt))
  {
    var items := CloneItems(params.recommended, vals);
    var generatedAt := params.generatedAt;
    if generatedAt == ZERO_TIME {
      generatedAt := now;
    }
    entry := LogEntry(OptionalTrimmed(params.userId), ToInt32(params.requestLimit), TrimSpace(params.source),
                      OptionalInt32(params.latencyMs), items, params.missing,
                      OptionalTrimmed(params.errorKind), generatedAt);
  }

  class RecommendationLogRepository {
    /** Entries handed to `Insert`, and the rows that were stored. */
    var attempts: seq<LogEntry>
    ghost var rows: seq<LogRecord>

    constructor ()
      ensures attempts == [] && rows == []
    {
      attempts, rows := [], [];
    }

    /** The entry is marshalled at once; a failing insert stores nothing. */
    method Insert(entry: LogEntry, up: bool, ghost record: LogRecord) returns (ok: bool)
      requires Contains(entry, record)
      modifies this
      ensures ok == up
      ensures attempts == old(attempts) + [entry] && Contains(entry, record)
      ensures rows == if up then old(rows) + [record] else old(rows)
    {
      attempts := attempts + [entry];
      if up {
        rows := rows + [record];
      }
      ok := up;
    }
  }
}
