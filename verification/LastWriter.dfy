/**
 * Field by field, the projection is last-writer-wins over the applied events, where an event writes
 * only the fields it effectively sets.
 */
module LastWriter {
  import opened Prelude
  import opened Projection
  import opened CatalogEvents
  import opened DeliveryRuns
  import opened VersionGuard

  /** The value a delivery gives to one field; None when it does not set that field. */
  type Writer<!T> = Delivery -> Option<T>

  function Matched(d: Delivery): Payload {
    if PayloadMatches(d.event) then d.event.payload else NoPayload
  }

  function Given<T>(value: Option<T>): Option<Option<T>> {
    if value.Some? then Some(value) else None
  }

  /** A given empty string clears the field. */
  function GivenOrCleared(value: Option<string>): Option<Option<string>> {
    if value.Some? then Some(OptionalString(value.value)) else None
  }

  function TitleWrite(d: Delivery): Option<string> {
    match Matched(d)
    case Created(title, _, _, _, _, _) => Some(DefaultTitle(title))
    case Updated(Some(title), _, _, _, _, _, _, _, _) => Some(DefaultTitle(title))
    case _ => None
  }

  function DescriptionWrite(d: Delivery): Option<Option<string>> {
    match Matched(d)
    case Created(_, description, _, _, _, _) => Some(description)
    case Updated(_, description, _, _, _, _, _, _, _) => Given(description)
    case _ => None
  }

  function DurationWrite(d: Delivery): Option<Option<int>> {
    match Matched(d)
    case Created(_, _, durationMicros, _, _, _) => Some(durationMicros)
    case Updated(_, _, durationMicros, _, _, _, _, _, _) => Given(durationMicros)
    case MediaReady(durationMicros, _, _, _, _) => Given(durationMicros)
    case _ => None
  }

  function ThumbnailWrite(d: Delivery): Option<Option<string>> {
    match Matched(d)
    case Created(_, _, _, _, _, _) => Some(None)
    case Updated(_, _, _, thumbnailUrl, _, _, _, _, _) => Given(thumbnailUrl)
    case MediaReady(_, thumbnailUrl, _, _, _) => Given(thumbnailUrl)
    case _ => None
  }

  function PlaylistWrite(d: Delivery): Option<Option<string>> {
    match Matched(d)
    case Created(_, _, _, _, _, _) => Some(None)
    case Updated(_, _, _, _, playlist, _, _, _, _) => Given(playlist)
    case MediaReady(_, _, playlist, _, _) => Given(playlist)
    case _ => None
  }

  /** An explicit empty status in Updated clears it; in the other events it says nothing. */
  function StatusWrite(d: Delivery): Option<Option<string>> {
    if d.event.kind.VideoDeleted? then Some(Some("deleted"))
    else
      match Matched(d)
      case Created(_, _, _, status, _, _) => Some(OptionalString(status))
      case Updated(_, _, _, _, _, status, _, _, _) => GivenOrCleared(status)
      case MediaReady(_, _, _, status, _) => Given(OptionalString(status))
      case VisibilityChanged(status, _, _, _) => Given(OptionalString(status))
      case _ => None
  }

  function VisibilityWrite(d: Delivery): Option<Option<string>> {
    match Matched(d)
    case Created(_, _, _, _, _, _) => Some(None)
    case Updated(_, _, _, _, _, _, visibility, _, _) => GivenOrCleared(visibility)
    case VisibilityChanged(_, visibility, _, _) => GivenOrCleared(visibility)
    case _ => None
  }

  /** A publish time that does not parse, or is the zero time, sets nothing outside Created. */
  function PublishedWrite(d: Delivery): Option<Option<Time>> {
    match Matched(d)
    case Created(_, _, _, _, publishedAt, _) => Some(OptionalTime(publishedAt))
    case Updated(_, _, _, _, _, _, _, publishedAt, _) => Given(OptionalTime(publishedAt))
    case VisibilityChanged(_, _, publishedAt, _) => Given(OptionalTime(publishedAt))
    case _ => None
  }

  function VersionWrite(d: Delivery): Option<int> {
    Some(Version(d))
  }

  function UpdatedAtWrite(d: Delivery): Option<Time> {
    match EventTime(d)
    case Ok(t) => Some(t)
    case Err(_) => None
  }

  /** The value of the latest write among `ds`, or `start` if nothing writes. */
  function LastWrite<T>(write: Writer<T>, ds: seq<Delivery>, start: T): T {
    if ds == [] then start
    else
      match write(ds[|ds| - 1])
      case Some(v) => v
      case None => LastWrite(write, ds[..|ds| - 1], start)
  }

  /** Delivery `i` writes the field and nothing after it does. */
  predicate IsLatestWrite<T>(write: Writer<T>, ds: seq<Delivery>, i: int) {
    0 <= i < |ds| && write(ds[i]).Some? && forall j :: i < j < |ds| ==> write(ds[j]).None?
  }

  predicate NoWrite<T>(write: Writer<T>, ds: seq<Delivery>) {
    forall i :: 0 <= i < |ds| ==> write(ds[i]).None?
  }

  lemma LatestSnoc<T>(write: Writer<T>, ds: seq<Delivery>, i: int)
    requires ds != [] && write(ds[|ds| - 1]).None?
    ensures IsLatestWrite(write, ds, i) <==> IsLatestWrite(write, ds[..|ds| - 1], i)
  {
    var front := ds[..|ds| - 1];
    assert forall k :: 0 <= k < |front| ==> front[k] == ds[k];
    if IsLatestWrite(write, front, i) {
      forall j | i < j < |ds| ensures write(ds[j]).None? {
        assert j < |front| ==> write(front[j]).None?;
      }
    }
  }

  /** `LastWrite` is what its name says. */
  lemma {:induction false} LastWriteIsLatest<T>(write: Writer<T>, ds: seq<Delivery>, start: T)
    ensures NoWrite(write, ds) ==> LastWrite(write, ds, start) == start
    ensures NoWrite(write, ds) || exists i :: IsLatestWrite(write, ds, i)
    ensures forall i :: IsLatestWrite(write, ds, i) ==> write(ds[i]) == Some(LastWrite(write, ds, start))
  {
    if ds != [] {
      var n := |ds| - 1;
      LastWriteIsLatest(write, ds[..n], start);
      if write(ds[n]).Some? {
        assert IsLatestWrite(write, ds, n);
      } else {
        forall i ensures IsLatestWrite(write, ds, i) <==> IsLatestWrite(write, ds[..n], i) {
          LatestSnoc(write, ds, i);
        }
        assert forall i :: 0 <= i < n ==> ds[..n][i] == ds[i];
      }
    }
  }

  /** The row in which every field holds its latest write. */
  function Written(base: Row, rs: seq<Delivery>): Row {
    Row(LastWrite(TitleWrite, rs, base.title),
        LastWrite(DescriptionWrite, rs, base.description),
        LastWrite(DurationWrite, rs, base.durationMicros),
        LastWrite(ThumbnailWrite, rs, base.thumbnailUrl),
        LastWrite(PlaylistWrite, rs, base.hlsMasterPlaylist),
        LastWrite(StatusWrite, rs, base.status),
        LastWrite(VisibilityWrite, rs, base.visibilityStatus),
        LastWrite(PublishedWrite, rs, base.publishedAt),
        LastWrite(VersionWrite, rs, base.version),
        LastWrite(UpdatedAtWrite, rs, base.updatedAt))
  }

  /** One applied event is one round of writes; a Created writes every field. */
  lemma ApplyWrites(row: Option<Row>, base: Row, front: seq<Delivery>, d: Delivery)
    requires Admitted(d).Some? && WellFormed(d.event)
    requires row.Some? ==> row.value == Written(base, front) && row.value.title != ""
    requires row.Some? || d.event.kind.VideoCreated?
    ensures Apply(row, d) == Some(Written(base, front + [d]))
  {
    assert (front + [d])[..|front + [d]| - 1] == front;
  }

  lemma {:induction false} RunKeepsRowOk(row: Option<Row>, ds: seq<Delivery>)
    requires AllAdmitted(ds) && (row.Some? ==> RowOk(row.value))
    ensures RunRow(row, ds).Some? ==> RowOk(RunRow(row, ds).value)
  {
    if ds != [] {
      RunKeepsRowOk(row, ds[..|ds| - 1]);
      StepKeepsRowOk(RunRow(row, ds[..|ds| - 1]), ds[|ds| - 1]);
    }
  }

  /**
   * Last writer wins. After any schedule whatsoever each field of the row holds the value of the
   * latest record that effectively sets that field, else the value the row started with. Without a
   * starting row `base` is arbitrary: the first record is then a Created, which sets every field.
   */
  lemma {:induction false} LastWriterWins(row: Option<Row>, base: Row, ds: seq<Delivery>)
    requires AllAdmitted(ds) && (row.Some? ==> RowOk(row.value) && base == row.value)
    ensures var rs := Records(VersionOf(row), ds);
            RunRow(row, ds) == if row.None? && rs == [] then None else Some(Written(base, rs))
  {
    if ds != [] {
      var n := |ds| - 1;
      var start, before := VersionOf(row), RunRow(row, ds[..n]);
      LastWriterWins(row, base, ds[..n]);
      RunKeepsRowOk(row, ds[..n]);
      StoredVersionIsHighWater(row, ds[..n]);
      RecordsPass(start, ds, VersionOf(before));
      StepIsGuardedApply(before, ds[n]);
      if IsRecord(start, ds, n) {
        ApplyWrites(before, base, Records(start, ds[..n]), ds[n]);
      }
    }
  }

  /**
   * When a video is in the feed's reach: after any schedule the row is ready exactly when the latest
   * record that sets the status sets it to ready (or none does and it started ready).
   */
  lemma ReadyIffLatestStatusIsReady(r: Row, ds: seq<Delivery>)
    requires AllAdmitted(ds) && RowOk(r)
    ensures var rs := Records(Some(r.version), ds);
            RunRow(Some(r), ds).Some?
            && (IsReady(RunRow(Some(r), ds).value)
                <==> (IsReady(r) && NoWrite(StatusWrite, rs))
                     || exists i :: IsLatestWrite(StatusWrite, rs, i) && StatusWrite(rs[i]) == Some(Some(READY)))
  {
    LastWriterWins(Some(r), r, ds);
    LastWriteIsLatest(StatusWrite, Records(Some(r.version), ds), r.status);
  }

  lemma {:induction false} RecordsCameFromSchedule(start: Option<int>, ds: seq<Delivery>, d: Delivery)
    requires AllAdmitted(ds) && d in Records(start, ds)
    ensures exists i :: 0 <= i < |ds| && ds[i] == d && IsRecord(start, ds, i)
  {
    var n := |ds| - 1;
    if IsRecord(start, ds, n) && d == ds[n] {
    } else {
      RecordsCameFromSchedule(start, ds[..n], d);
      var i :| 0 <= i < n && ds[..n][i] == d && IsRecord(start, ds[..n], i);
      RecordIsLocal(start, ds, n, i);
      assert ds[i] == d;
    }
  }

  lemma RecordIsLocal(start: Option<int>, ds: seq<Delivery>, n: nat, i: nat)
    requires i < n <= |ds|
    ensures IsRecord(start, ds, i) <==> IsRecord(start, ds[..n], i)
  {
    assert forall k :: 0 <= k < n ==> ds[..n][k] == ds[k];
    assert forall j :: Counts(ds, j, i) <==> Counts(ds[..n], j, i);
    assert StartCounts(ds, i) <==> StartCounts(ds[..n], i);
    assert CreatedBefore(ds, i) <==> CreatedBefore(ds[..n], i);
  }

  /** The stored version fell. */
  predicate Lowers(before: Option<Row>, after: Option<Row>) {
    before.Some? && after.Some? && after.value.version < before.value.version
  }

  /** ... at no step of the schedule. */
  predicate NeverLowers(row: Option<Row>, ds: seq<Delivery>)
    requires AllAdmitted(ds)
  {
    ds != [] ==>
      var front := ds[..|ds| - 1];
      NeverLowers(row, front) && !Lowers(RunRow(row, front), RunRow(row, ds))
  }

  lemma {:induction false} WithoutResetsNothingLowers(r: Row, ds: seq<Delivery>)
    requires AllAdmitted(ds) && NeverResets(ds)
    ensures NeverLowers(Some(r), ds)
  {
    if ds != [] {
      var n := |ds| - 1;
      WithoutResetsNothingLowers(r, ds[..n]);
      VersionIsMaximum(r, ds[..n]);
      OnlyResetsLowerTheVersion(RunRow(Some(r), ds[..n]).value, ds[n]);
    }
  }

  /** A delivery that the guard refuses wherever the stored version is at least `v`. */
  predicate Stale(v: int, d: Delivery) {
    !d.event.kind.VideoCreated? && Version(d) != 0 && Version(d) <= v
  }

  /** At every moment of a schedule that lowers no version the row is there, at its first version or above. */
  lemma {:induction false} VersionHolds(r: Row, ds: seq<Delivery>, n: nat)
    requires AllAdmitted(ds) && NeverLowers(Some(r), ds) && n <= |ds|
    ensures RunRow(Some(r), ds[..n]).Some? && r.version <= RunRow(Some(r), ds[..n]).value.version
    decreases |ds|
  {
    if n < |ds| {
      VersionHolds(r, ds[..|ds| - 1], n);
      assert ds[..|ds| - 1][..n] == ds[..n];
    } else if n > 0 {
      VersionHolds(r, ds[..n - 1], n - 1);
      assert ds[..n] == ds && ds[..n - 1][..n - 1] == ds[..n - 1];
      StepIsGuardedApply(RunRow(Some(r), ds[..n - 1]), ds[n - 1]);
    } else {
      assert ds[..n] == [];
    }
  }

  /** While no version is lowered, a stale delivery leaves the row exactly as it is. */
  lemma StaleIsRefused(r: Row, ds: seq<Delivery>, i: nat)
    requires AllAdmitted(ds) && NeverLowers(Some(r), ds) && i < |ds| && Stale(r.version, ds[i])
    ensures RunRow(Some(r), ds[..i + 1]) == RunRow(Some(r), ds[..i])
  {
    VersionHolds(r, ds, i);
    StepIsGuardedApply(RunRow(Some(r), ds[..i]), ds[i]);
    assert ds[..i + 1][..i] == ds[..i];
  }

  /** A record is what the guard let through at its moment. */
  lemma RecordPassed(row: Option<Row>, ds: seq<Delivery>, i: nat)
    requires AllAdmitted(ds) && i < |ds| && IsRecord(VersionOf(row), ds, i)
    ensures Passes(VersionOf(RunRow(row, ds[..i])), ds[i])
  {
    var upto := ds[..i + 1];
    assert upto[..|upto| - 1] == ds[..i] && upto[i] == ds[i];
    StoredVersionIsHighWater(row, ds[..i]);
    RecordIsLocal(VersionOf(row), ds, i + 1, i);
    RecordsPass(VersionOf(row), upto, VersionOf(RunRow(row, ds[..i])));
  }

  /** While no version is lowered, no record is stale. */
  lemma RecordsAreNotStale(r: Row, ds: seq<Delivery>, i: nat)
    requires AllAdmitted(ds) && NeverLowers(Some(r), ds) && i < |ds| && IsRecord(Some(r.version), ds, i)
    ensures !Stale(r.version, ds[i])
  {
    VersionHolds(r, ds, i);
    RecordPassed(Some(r), ds, i);
  }

  /** The deliveries above a version, and the resets. */
  function Above(v: int, ds: seq<Delivery>): (r: seq<Delivery>)
    ensures AllAdmitted(ds) ==> AllAdmitted(r)
  {
    if ds == [] then []
    else
      var front, last := Above(v, ds[..|ds| - 1]), ds[|ds| - 1];
      if v < Version(last) || Resets(last) then front + [last] else front
  }

  /** While no version is lowered, everything at or below the first version, but a reset, might as well be lost. */
  lemma {:induction false} StaleIsInvisible(r: Row, ds: seq<Delivery>, v: int)
    requires AllAdmitted(ds) && NeverLowers(Some(r), ds) && v <= r.version
    ensures RunRow(Some(r), ds) == RunRow(Some(r), Above(v, ds))
  {
    if ds != [] {
      var n := |ds| - 1;
      StaleIsInvisible(r, ds[..n], v);
      VersionHolds(r, ds, n);
      StepIsGuardedApply(RunRow(Some(r), ds[..n]), ds[n]);
      if v < Version(ds[n]) || Resets(ds[n]) {
        var up := Above(v, ds);
        assert up[..|up| - 1] == Above(v, ds[..n]);
      }
    }
  }

  /** Record `i` brings the row back: it was applied, and it carries status ready itself. */
  ghost predicate Revives(v: int, ds: seq<Delivery>, i: int) {
    0 <= i < |ds| && IsRecord(Some(v), ds, i) && StatusWrite(ds[i]) == Some(Some(READY))
  }

  /**
   * A deleted video stays out of the feed. Once a Deleted was applied to its row, the row is ready in
   * a later state exactly when the latest status that an applied delivery set since is ready; that
   * delivery carries it itself. While no step lowers the stored version, deliveries at or below the
   * version of the delete leave the row alone, and cannot be the one.
   */
  lemma DeletedStaysOut(t: Table, del: Delivery, ds: seq<Delivery>, id: Uuid)
    requires id in t && RowOk(t[id]) && Admitted(del) == Some(id)
    requires del.event.kind.VideoDeleted? && Passes(Some(t[id].version), del)
    ensures var dead, mine := Step(t, del).table, Only(ds, id);
            var v, rs := Version(del), Records(Some(Version(del)), mine);
            && (id in ReadyIds(Run(dead, ds))
                <==> exists k :: IsLatestWrite(StatusWrite, rs, k) && StatusWrite(rs[k]) == Some(Some(READY)))
            && (id in ReadyIds(Run(dead, ds)) ==> exists i :: Revives(v, mine, i))
            && (NeverLowers(Lookup(dead, id), mine) ==>
                  && RunRow(Lookup(dead, id), mine) == RunRow(Lookup(dead, id), Above(v, mine))
                  && (forall i :: 0 <= i < |mine| && Stale(v, mine[i]) ==>
                        RunRow(Lookup(dead, id), mine[..i + 1]) == RunRow(Lookup(dead, id), mine[..i]))
                  && (forall i :: Revives(v, mine, i) ==> !Stale(v, mine[i])))
  {
    var dead, mine := Step(t, del).table, Only(ds, id);
    var r := dead[id];
    StepIsLocal(t, del, id);
    StepIsGuardedApply(Some(t[id]), del);
    StepKeepsRowOk(Some(t[id]), del);
    assert Lookup(dead, id) == Some(r) && r.version == Version(del) && !IsReady(r);
    DeadRowStaysOut(r, mine);
    RunIsPerVideo(dead, ds, id);
    if NeverLowers(Some(r), mine) {
      StaleIsInvisible(r, mine, r.version);
      forall i | 0 <= i < |mine| && Stale(r.version, mine[i])
        ensures RunRow(Some(r), mine[..i + 1]) == RunRow(Some(r), mine[..i])
      {
        StaleIsRefused(r, mine, i);
      }
      forall i | Revives(r.version, mine, i) ensures !Stale(r.version, mine[i]) {
        RecordsAreNotStale(r, mine, i);
      }
    }
  }

  /** The row alone: from a row that is not ready, only a record that carries status ready makes it so. */
  lemma DeadRowStaysOut(r: Row, mine: seq<Delivery>)
    requires AllAdmitted(mine) && RowOk(r) && !IsReady(r)
    ensures RunRow(Some(r), mine).Some?
    ensures var rs := Records(Some(r.version), mine);
            IsReady(RunRow(Some(r), mine).value)
            <==> exists k :: IsLatestWrite(StatusWrite, rs, k) && StatusWrite(rs[k]) == Some(Some(READY))
    ensures IsReady(RunRow(Some(r), mine).value) ==> exists i :: Revives(r.version, mine, i)
  {
    var rs := Records(Some(r.version), mine);
    ReadyIffLatestStatusIsReady(r, mine);
    if IsReady(RunRow(Some(r), mine).value) {
      var k :| IsLatestWrite(StatusWrite, rs, k) && StatusWrite(rs[k]) == Some(Some(READY));
      RecordsCameFromSchedule(Some(r.version), mine, rs[k]);
      var i :| 0 <= i < |mine| && mine[i] == rs[k] && IsRecord(Some(r.version), mine, i);
      assert Revives(r.version, mine, i);
    }
  }
}
