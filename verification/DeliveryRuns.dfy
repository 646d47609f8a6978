/**
 * Whole delivery schedules: any finite sequence of deliveries, repeated and reordered at will, failed
 * attempts included. A run of the table is, video by video, a run of one row.
 */
module DeliveryRuns {
  import opened Prelude
  import opened Projection
  import opened CatalogEvents

  function Run(t: Table, ds: seq<Delivery>): Table {
    if ds == [] then t
    else Step(Run(t, ds[..|ds| - 1]), ds[|ds| - 1]).table
  }

  /** The video a delivery acts on; None when it is refused before any row is touched. */
  function Admitted(d: Delivery): Option<Uuid> {
    if EventTime(d).Err? then None else Target(d)
  }

  function StepRow(row: Option<Row>, d: Delivery): Option<Row>
    requires Admitted(d).Some?
  {
    Settle(d.event, EventTime(d).value, d.db, row, row).row
  }

  predicate AllFor(ds: seq<Delivery>, id: Uuid) {
    forall i :: 0 <= i < |ds| ==> Admitted(ds[i]) == Some(id)
  }

  /** The deliveries that act on video `id`, in order. */
  function Only(ds: seq<Delivery>, id: Uuid): (r: seq<Delivery>)
    ensures AllFor(r, id)
  {
    if ds == [] then []
    else
      var front := Only(ds[..|ds| - 1], id);
      var last := ds[|ds| - 1];
      if Admitted(last) == Some(id) then front + [last] else front
  }

  predicate AllAdmitted(ds: seq<Delivery>) {
    forall i :: 0 <= i < |ds| ==> Admitted(ds[i]).Some?
  }

  function RunRow(row: Option<Row>, ds: seq<Delivery>): Option<Row>
    requires AllAdmitted(ds)
  {
    if ds == [] then row
    else StepRow(RunRow(row, ds[..|ds| - 1]), ds[|ds| - 1])
  }

  /** A step changes at most the row of its own video. */
  lemma StepIsLocal(t: Table, d: Delivery, id: Uuid)
    ensures Lookup(Step(t, d).table, id)
            == if Admitted(d) == Some(id) then StepRow(Lookup(t, id), d) else Lookup(t, id)
  {
  }

  /** The row of a video depends only on that video's own deliveries, in their own order. */
  lemma {:induction false} RunIsPerVideo(t: Table, ds: seq<Delivery>, id: Uuid)
    ensures Lookup(Run(t, ds), id) == RunRow(Lookup(t, id), Only(ds, id))
  {
    if ds != [] {
      var front, last := ds[..|ds| - 1], ds[|ds| - 1];
      RunIsPerVideo(t, front, id);
      StepIsLocal(Run(t, front), last, id);
      if Admitted(last) == Some(id) {
        assert Only(ds, id)[..|Only(ds, id)| - 1] == Only(front, id);
      }
    }
  }

  lemma SameRowsSameTable(t: Table, u: Table)
    requires forall id :: Lookup(t, id) == Lookup(u, id)
    ensures t == u
  {
    forall id | id in t.Keys + u.Keys ensures id in t && id in u && t[id] == u[id] {
      assert Lookup(t, id) == Lookup(u, id);
    }
  }

  /** The event carries its own time, so the clock plays no part in handling it. */
  predicate ClockFree(d: Delivery) {
    match d.event.occurredAt
    case Absent => false
    case Malformed => true
    case At(t) => t != ZERO_TIME
  }

  /** The same event with the same outcome at the database, perhaps at another moment. */
  predicate SameApartFromClock(d: Delivery, d': Delivery) {
    d' == d.(clock := d'.clock)
  }

  predicate SameSchedule(ds: seq<Delivery>, ds': seq<Delivery>) {
    |ds| == |ds'| && forall i :: 0 <= i < |ds| ==> SameApartFromClock(ds[i], ds'[i]) && ClockFree(ds[i])
  }

  lemma {:induction false} RunRowIgnoresClock(row: Option<Row>, ds: seq<Delivery>, ds': seq<Delivery>)
    requires AllAdmitted(ds) && AllAdmitted(ds') && SameSchedule(ds, ds')
    ensures RunRow(row, ds) == RunRow(row, ds')
  {
    if ds != [] {
      var n := |ds| - 1;
      RunRowIgnoresClock(row, ds[..n], ds'[..n]);
      assert SameApartFromClock(ds[n], ds'[n]) && ClockFree(ds[n]);
    }
  }

  /**
   * Ordering per video is enough: two schedules that agree, video by video, on the order of the
   * events (each carrying its own time) lead every table to the same table, whatever the clocks show.
   */
  lemma PerVideoOrderIsEnough(t: Table, ds: seq<Delivery>, ds': seq<Delivery>)
    requires forall id :: SameSchedule(Only(ds, id), Only(ds', id))
    ensures Run(t, ds) == Run(t, ds')
  {
    forall id ensures Lookup(Run(t, ds), id) == Lookup(Run(t, ds'), id) {
      RunIsPerVideo(t, ds, id);
      RunIsPerVideo(t, ds', id);
      RunRowIgnoresClock(Lookup(t, id), Only(ds, id), Only(ds', id));
    }
    SameRowsSameTable(Run(t, ds), Run(t, ds'));
  }

  /** Deliveries that act on different videos commute. */
  lemma DifferentVideosCommute(t: Table, d: Delivery, e: Delivery)
    requires Admitted(d) != Admitted(e) || Admitted(d).None?
    ensures Step(Step(t, d).table, e).table == Step(Step(t, e).table, d).table
  {
    var de, ed := Step(Step(t, d).table, e).table, Step(Step(t, e).table, d).table;
    forall id ensures Lookup(de, id) == Lookup(ed, id) {
      StepIsLocal(t, d, id);
      StepIsLocal(t, e, id);
      StepIsLocal(Step(t, d).table, e, id);
      StepIsLocal(Step(t, e).table, d, id);
    }
    SameRowsSameTable(de, ed);
  }

  /** A delivery that creates the row of a video that has none. */
  predicate Creates(d: Delivery, id: Uuid) {
    Admitted(d) == Some(id) && d.event.kind.VideoCreated? && d.event.payload.Created? && !d.db.UpsertFails?
  }

  /** Rows are never removed, and a key is new exactly when a Created for it was handled. */
  lemma {:induction false} KeysOnlyGrow(t: Table, ds: seq<Delivery>, id: Uuid)
    ensures id in Run(t, ds) <==> id in t || exists i :: 0 <= i < |ds| && Creates(ds[i], id)
  {
    if ds != [] {
      var front, last := ds[..|ds| - 1], ds[|ds| - 1];
      KeysOnlyGrow(t, front, id);
      StepIsLocal(Run(t, front), last, id);
      if Creates(last, id) {
        assert Creates(ds[|ds| - 1], id);
      }
      if i :| 0 <= i < |front| && Creates(front[i], id) {
        assert Creates(ds[i], id);
      }
    }
  }

  /**
   * What every reachable row satisfies. The last clause holds at the precision the model keeps: an
   * instant less than a microsecond after the zero time is not the zero time here, but a column that
   * keeps microseconds stores it as that.
   */
  predicate RowOk(row: Row) {
    && row.title != ""
    && row.status != Some("") && row.visibilityStatus != Some("")
    && row.publishedAt != Some(ZERO_TIME)
  }

  predicate TableOk(t: Table) {
    forall id :: id in t ==> RowOk(t[id])
  }

  lemma StepKeepsRowOk(row: Option<Row>, d: Delivery)
    requires Admitted(d).Some? && (row.Some? ==> RowOk(row.value))
    ensures StepRow(row, d).Some? ==> RowOk(StepRow(row, d).value)
  {
  }

  /**
   * From the empty table (or any table of well-kept rows) every reachable row has a title, no empty
   * status or visibility, and no zero publish time.
   */
  lemma {:induction false} ReachableRowsOk(t: Table, ds: seq<Delivery>)
    requires TableOk(t)
    ensures TableOk(Run(t, ds))
  {
    if ds != [] {
      var before, last := Run(t, ds[..|ds| - 1]), ds[|ds| - 1];
      ReachableRowsOk(t, ds[..|ds| - 1]);
      forall id | id in Run(t, ds) ensures RowOk(Run(t, ds)[id]) {
        StepIsLocal(before, last, id);
        assert Lookup(Run(t, ds), id) == Some(Run(t, ds)[id]);
        if Admitted(last) == Some(id) {
          StepKeepsRowOk(Lookup(before, id), last);
        }
      }
    }
  }

  /** The fields Deleted does not own. */
  predicate SameButStatus(r: Row, s: Row) {
    s == r.(status := s.status, version := s.version, updatedAt := s.updatedAt)
  }

  /** `s` keeps every field of `r` that events of this kind do not own. */
  predicate KeepsTheRest(kind: Kind, r: Row, s: Row) {
    match kind
    case VideoDeleted => SameButStatus(r, s)
    case VideoVisibilityChanged =>
      SameButStatus(r, s.(visibilityStatus := r.visibilityStatus, publishedAt := r.publishedAt))
    case VideoMediaReady =>
      SameButStatus(r, s.(durationMicros := r.durationMicros, thumbnailUrl := r.thumbnailUrl,
                          hlsMasterPlaylist := r.hlsMasterPlaylist))
    case _ => true
  }

  lemma NarrowStep(r: Row, d: Delivery)
    requires RowOk(r) && Admitted(d).Some?
    ensures StepRow(Some(r), d).Some? && KeepsTheRest(d.event.kind, r, StepRow(Some(r), d).value)
  {
  }

  /**
   * In a reachable table the narrow events leave every field they do not own exactly as it was:
   * the default title of the merge never rewrites a stored title.
   */
  lemma NarrowEventsKeepTheRest(t0: Table, ds: seq<Delivery>, d: Delivery, id: Uuid)
    requires TableOk(t0) && id in Run(t0, ds)
    ensures id in Step(Run(t0, ds), d).table
    ensures var r, s := Run(t0, ds)[id], Step(Run(t0, ds), d).table[id];
            KeepsTheRest(d.event.kind, r, s) && (Admitted(d) != Some(id) ==> s == r)
  {
    var t := Run(t0, ds);
    ReachableRowsOk(t0, ds);
    StepIsLocal(t, d, id);
    assert Lookup(t, id) == Some(t[id]);
    if Admitted(d) == Some(id) {
      NarrowStep(t[id], d);
    }
  }

  /** A delivery that writes the row without looking at the stored version. */
  predicate OverwritesRow(row: Option<Row>, d: Delivery) {
    WellFormed(d.event) && (d.event.kind.VideoCreated? || (EffectiveVersion(d.event) == 0 && row.Some?))
  }

  predicate Overwrites(t: Table, d: Delivery) {
    Admitted(d).Some? && OverwritesRow(Lookup(t, Admitted(d).value), d)
  }

  /** The same event again, with the database answering. */
  predicate Redelivers(d: Delivery, d': Delivery) {
    d'.event == d.event && d'.inboxId == d.inboxId && d'.db.Up?
  }

  lemma RowRedelivery(row: Option<Row>, d: Delivery, d': Delivery)
    requires Redelivers(d, d') && Admitted(d).Some?
    requires Settle(d.event, EventTime(d).value, d.db, row, row).status.Ok?
    ensures StepRow(StepRow(row, d), d') == StepRow(row, d)
            <==> !OverwritesRow(row, d) || ClockFree(d) || d'.clock == d.clock
  {
  }

  /**
   * Immediate redelivery. After a delivery was handled without error on any table, delivering the
   * same event again changes nothing, exactly when the event does not write past the guard or both
   * deliveries stamp the same time.
   */
  lemma ImmediateRedelivery(t: Table, d: Delivery, d': Delivery)
    requires Step(t, d).status.Ok? && Redelivers(d, d')
    ensures Step(Step(t, d).table, d').table == Step(t, d).table
            <==> !Overwrites(t, d) || ClockFree(d) || d'.clock == d.clock
  {
    var id := Target(d).value;
    var t1 := Step(t, d).table;
    StepIsLocal(t, d, id);
    RowRedelivery(Lookup(t, id), d, d');
    forall other ensures Lookup(Step(t1, d').table, other)
                         == if other == id then StepRow(Lookup(t1, id), d') else Lookup(t1, other) {
      StepIsLocal(t1, d', other);
    }
    if StepRow(Lookup(t1, id), d') == Lookup(t1, id) {
      SameRowsSameTable(Step(t1, d').table, t1);
    }
  }

  /** A Deleted with version 0 and no time of its own, delivered twice: the second stamps the row again. */
  lemma RedeliveryCanRestamp()
    ensures var row := Row("t", None, None, None, None, None, None, None, 7, 1);
            var t: Table := map[Uuid(0) := row];
            var d := Delivery(Event(VideoDeleted, Canonical(Uuid(0)), Absent, 0, Deleted(0)), None, 2, Up);
            var once := Step(t, d).table;
            var twice := Step(once, d.(clock := 3)).table;
            && Lookup(once, Uuid(0)) == Some(row.(status := Some("deleted"), version := 0, updatedAt := 2))
            && Lookup(twice, Uuid(0)) == Some(row.(status := Some("deleted"), version := 0, updatedAt := 3))
  {
    var t: Table := map[Uuid(0) := Row("t", None, None, None, None, None, None, None, 7, 1)];
    var d := Delivery(Event(VideoDeleted, Canonical(Uuid(0)), Absent, 0, Deleted(0)), None, 2, Up);
    StepIsLocal(t, d, Uuid(0));
    StepIsLocal(Step(t, d).table, d.(clock := 3), Uuid(0));
  }
}
