/**
 * What the version guard does over a whole run of one video, for every schedule: the deliveries that
 * are applied are the strict maxima since the last reset, and the stored version is their maximum.
 */
module VersionGuard {
  import opened Prelude
  import opened Projection
  import opened CatalogEvents
  import opened DeliveryRuns

  function Version(d: Delivery): int {
    EffectiveVersion(d.event)
  }

  /** No call of the handler fails, so the delivery can reach the table. */
  predicate Lands(d: Delivery) {
    WellFormed(d.event) && !d.db.UpsertFails? && (d.event.kind.VideoCreated? || !d.db.LoadFails?)
  }

  /** The two kinds of delivery that ignore the stored version. */
  predicate Resets(d: Delivery) {
    Lands(d) && (d.event.kind.VideoCreated? || Version(d) == 0)
  }

  /** Delivery `j` still counts at position `i`: it landed and nothing between them was a reset. */
  predicate Counts(ds: seq<Delivery>, j: int, i: int)
    requires i <= |ds|
  {
    0 <= j < i && Lands(ds[j]) && forall k :: j < k < i ==> !Resets(ds[k])
  }

  predicate StartCounts(ds: seq<Delivery>, i: int)
    requires i <= |ds|
  {
    forall k :: 0 <= k < i ==> !Resets(ds[k])
  }

  predicate CreatedBefore(ds: seq<Delivery>, i: int)
    requires i <= |ds|
  {
    exists k :: 0 <= k < i && Lands(ds[k]) && ds[k].event.kind.VideoCreated?
  }

  /**
   * Delivery `i` is a record of a schedule that starts at version `start` (None: no row): it lands on
   * an existing row and is a Created, has version 0, or beats every version counting at `i`.
   */
  ghost predicate IsRecord(start: Option<int>, ds: seq<Delivery>, i: int)
    requires 0 <= i < |ds|
  {
    && Lands(ds[i])
    && (ds[i].event.kind.VideoCreated?
        || ((start.Some? || CreatedBefore(ds, i))
            && (Version(ds[i]) == 0
                || ((forall j :: Counts(ds, j, i) ==> Version(ds[j]) < Version(ds[i]))
                    && (start.Some? && StartCounts(ds, i) ==> start.value < Version(ds[i]))))))
  }

  /** The records of a schedule, in order. */
  ghost function Records(start: Option<int>, ds: seq<Delivery>): (rs: seq<Delivery>)
    requires AllAdmitted(ds)
    ensures AllAdmitted(rs)
  {
    if ds == [] then []
    else
      var front := Records(start, ds[..|ds| - 1]);
      if IsRecord(start, ds, |ds| - 1) then front + [ds[|ds| - 1]] else front
  }

  /** Write one event over a row with no version check at all. */
  function Apply(row: Option<Row>, d: Delivery): Option<Row>
    requires Admitted(d).Some?
  {
    if !WellFormed(d.event) then row
    else if d.event.kind.VideoCreated? then Some(CreatedRow(d.event, EventTime(d).value))
    else if row.None? then None
    else Some(Merge(d.event, EventTime(d).value, row.value))
  }

  function Fold(row: Option<Row>, ds: seq<Delivery>): Option<Row>
    requires AllAdmitted(ds)
  {
    if ds == [] then row else Apply(Fold(row, ds[..|ds| - 1]), ds[|ds| - 1])
  }

  function VersionOf(row: Option<Row>): Option<int> {
    if row.None? then None else Some(row.value.version)
  }

  /** `v` is the greatest of the versions that count at the end of `ds`. */
  ghost predicate IsHighWater(start: Option<int>, ds: seq<Delivery>, v: int) {
    var n := |ds|;
    && (forall j :: Counts(ds, j, n) ==> Version(ds[j]) <= v)
    && (start.Some? && StartCounts(ds, n) ==> start.value <= v)
    && ((exists j :: Counts(ds, j, n) && Version(ds[j]) == v) || (StartCounts(ds, n) && start == Some(v)))
  }

  lemma CountsSnoc(ds: seq<Delivery>, j: int)
    requires ds != []
    ensures var n := |ds| - 1;
            && (Counts(ds, j, n) <==> Counts(ds[..n], j, n))
            && (StartCounts(ds, n) <==> StartCounts(ds[..n], n))
            && (CreatedBefore(ds, n) <==> CreatedBefore(ds[..n], n))
            && (Counts(ds, j, n + 1) <==> (j == n && Lands(ds[n])) || (Counts(ds, j, n) && !Resets(ds[n])))
            && (StartCounts(ds, n + 1) <==> StartCounts(ds, n) && !Resets(ds[n]))
            && (CreatedBefore(ds, n + 1) <==> CreatedBefore(ds, n) || (Lands(ds[n]) && ds[n].event.kind.VideoCreated?))
  {
    var n := |ds| - 1;
    assert forall k :: 0 <= k < n ==> ds[k] == ds[..n][k];
  }

  /** The guard alone: would delivery `d` be written over a row at this version (None: no row)? */
  predicate Passes(current: Option<int>, d: Delivery) {
    Lands(d) && (d.event.kind.VideoCreated? || (current.Some? && ShouldApply(Version(d), current.value)))
  }

  function NextVersion(current: Option<int>, d: Delivery): Option<int> {
    if Passes(current, d) then Some(Version(d)) else current
  }

  /** A handled delivery either writes the unguarded merge or leaves the row alone. */
  lemma StepIsGuardedApply(row: Option<Row>, d: Delivery)
    requires Admitted(d).Some?
    ensures StepRow(row, d) == if Passes(VersionOf(row), d) then Apply(row, d) else row
    ensures VersionOf(StepRow(row, d)) == NextVersion(VersionOf(row), d)
  {
  }

  lemma HighWaterBound(start: Option<int>, ds: seq<Delivery>, before: Option<int>, j: int)
    requires ds != [] && NextVersion(before, ds[|ds| - 1]).Some?
    requires before.Some? ==> IsHighWater(start, ds[..|ds| - 1], before.value)
    requires Counts(ds, j, |ds|)
    ensures Version(ds[j]) <= NextVersion(before, ds[|ds| - 1]).value
  {
    CountsSnoc(ds, j);
    var n := |ds| - 1;
    if j < n {
      assert Counts(ds[..n], j, n);
    }
  }

  lemma HighWaterStep(start: Option<int>, ds: seq<Delivery>, before: Option<int>)
    requires ds != [] && NextVersion(before, ds[|ds| - 1]).Some?
    requires before.Some? ==> IsHighWater(start, ds[..|ds| - 1], before.value)
    ensures IsHighWater(start, ds, NextVersion(before, ds[|ds| - 1]).value)
  {
    var n := |ds| - 1;
    forall j | Counts(ds, j, n + 1)
      ensures Version(ds[j]) <= NextVersion(before, ds[n]).value
    {
      HighWaterBound(start, ds, before, j);
    }
    CountsSnoc(ds, n);
    if Passes(before, ds[n]) {
      assert Counts(ds, n, n + 1);
    } else if j :| Counts(ds[..n], j, n) && Version(ds[..n][j]) == before.value {
      CountsSnoc(ds, j);
      assert Counts(ds, j, n + 1);
    }
  }

  predicate CountsAtEnd(ds: seq<Delivery>, j: int)
    requires ds != []
  {
    var n := |ds| - 1;
    && (Counts(ds, j, n) <==> Counts(ds[..n], j, n))
    && (Counts(ds, j, n + 1) <==> (j == n && Lands(ds[n])) || (Counts(ds, j, n) && !Resets(ds[n])))
  }

  /**
   * The stored version, over any schedule at all: a row is there exactly when there was one or a
   * Created landed, and its version is the maximum of the versions delivered since the last reset.
   */
  lemma {:induction false} StoredVersionIsHighWater(row: Option<Row>, ds: seq<Delivery>)
    requires AllAdmitted(ds)
    ensures RunRow(row, ds).Some? <==> row.Some? || CreatedBefore(ds, |ds|)
    ensures RunRow(row, ds).Some? ==> IsHighWater(VersionOf(row), ds, RunRow(row, ds).value.version)
  {
    if ds != [] {
      var n := |ds| - 1;
      StoredVersionIsHighWater(row, ds[..n]);
      CountsSnoc(ds, n);
      StepIsGuardedApply(RunRow(row, ds[..n]), ds[n]);
      if RunRow(row, ds).Some? {
        HighWaterStep(VersionOf(row), ds, VersionOf(RunRow(row, ds[..n])));
      }
    }
  }

  /** At the end of a schedule the guard lets through exactly the records. */
  lemma RecordsPass(start: Option<int>, ds: seq<Delivery>, before: Option<int>)
    requires ds != []
    requires before.Some? <==> start.Some? || CreatedBefore(ds[..|ds| - 1], |ds| - 1)
    requires before.Some? ==> IsHighWater(start, ds[..|ds| - 1], before.value)
    ensures Passes(before, ds[|ds| - 1]) <==> IsRecord(start, ds, |ds| - 1)
  {
    var n := |ds| - 1;
    forall j ensures CountsAtEnd(ds, j) { CountsSnoc(ds, j); }
    CountsSnoc(ds, n);
    assert forall j :: Counts(ds, j, n) ==> CountsAtEnd(ds, j) && Counts(ds[..n], j, n);
    if before.Some? && Version(ds[n]) != 0 {
      if j :| Counts(ds[..n], j, n) && Version(ds[..n][j]) == before.value {
        assert CountsAtEnd(ds, j) && Counts(ds, j, n);
      }
    }
  }

  /**
   * Guarded run refines plain fold. For every starting row, every schedule and every mixture of
   * repeats, reorderings, failures, Created and version-0 events, the guarded run ends in the row
   * obtained by writing the records, and only them, one over the other with no guard.
   */
  lemma {:induction false} GuardedRunIsFoldOfRecords(row: Option<Row>, ds: seq<Delivery>)
    requires AllAdmitted(ds)
    ensures RunRow(row, ds) == Fold(row, Records(VersionOf(row), ds))
  {
    if ds != [] {
      var n := |ds| - 1;
      GuardedRunIsFoldOfRecords(row, ds[..n]);
      StoredVersionIsHighWater(row, ds[..n]);
      RecordsPass(VersionOf(row), ds, VersionOf(RunRow(row, ds[..n])));
      StepIsGuardedApply(RunRow(row, ds[..n]), ds[n]);
      var rs := Records(VersionOf(row), ds);
      if IsRecord(VersionOf(row), ds, n) {
        assert rs[..|rs| - 1] == Records(VersionOf(row), ds[..n]);
      }
    }
  }

  /** Neither a Created nor effective version 0: a delivery the guard decides about. */
  predicate NeverResets(ds: seq<Delivery>) {
    forall i :: 0 <= i < |ds| ==> !Resets(ds[i])
  }

  /** With no reset in the schedule the records are its left-to-right strict maxima above the start. */
  lemma RecordsWithoutResets(start: int, ds: seq<Delivery>, i: nat)
    requires i < |ds| && NeverResets(ds)
    ensures IsRecord(Some(start), ds, i)
            <==> Lands(ds[i]) && start < Version(ds[i])
                 && forall j :: 0 <= j < i && Lands(ds[j]) ==> Version(ds[j]) < Version(ds[i])
  {
    assert forall j :: 0 <= j < i && Lands(ds[j]) ==> Counts(ds, j, i);
  }

  /** One step lowers the stored version exactly when it is a reset to a smaller version. */
  lemma OnlyResetsLowerTheVersion(r: Row, d: Delivery)
    requires Admitted(d).Some?
    ensures StepRow(Some(r), d).Some?
    ensures StepRow(Some(r), d).value.version < r.version <==> Resets(d) && Version(d) < r.version
  {
  }

  /** With no reset, the stored version is the maximum of the start and everything that landed. */
  lemma VersionIsMaximum(r: Row, ds: seq<Delivery>)
    requires AllAdmitted(ds) && NeverResets(ds)
    ensures RunRow(Some(r), ds).Some?
    ensures var v := RunRow(Some(r), ds).value.version;
            && r.version <= v && (forall i :: 0 <= i < |ds| && Lands(ds[i]) ==> Version(ds[i]) <= v)
            && (v == r.version || exists i :: 0 <= i < |ds| && Lands(ds[i]) && Version(ds[i]) == v)
  {
    StoredVersionIsHighWater(Some(r), ds);
    assert forall j :: 0 <= j < |ds| && Lands(ds[j]) ==> Counts(ds, j, |ds|);
  }

  /**
   * Late redelivery: once an event the guard decides about has landed on a row, delivering it again,
   * at any time and however the database behaves, does nothing until the next reset.
   */
  lemma LateRedeliveryIsNoOp(row: Option<Row>, ds: seq<Delivery>, i: nat, again: Delivery)
    requires AllAdmitted(ds) && Admitted(again).Some?
    requires i < |ds| && Counts(ds, i, |ds|) && !Resets(ds[i])
    requires again.event == ds[i].event
    ensures StepRow(RunRow(row, ds), again) == RunRow(row, ds)
  {
    StoredVersionIsHighWater(row, ds);
  }
}
