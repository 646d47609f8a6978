/**
 * Two handlers of one video that both load its row before either writes: why exclusion is needed, and
 * exactly when it would not have been.
 */
module Overlaps {
  import opened Prelude
  import opened Projection
  import opened CatalogEvents
  import opened DeliveryRuns
  import opened VersionGuard
  import opened LastWriter
  import opened Workers

  function Overlap(d: Delivery, e: Delivery): seq<Action> {
    [Load(0, d), Load(1, e), Commit(0), Commit(1)]
  }

  function Overlapped(t: Table, d: Delivery, e: Delivery): Table {
    Exec(State(t, map[]), Overlap(d, e)).table
  }

  /** One after the other, in the order in which the overlapping handlers write. */
  function Serially(t: Table, d: Delivery, e: Delivery): Table {
    Run(t, CommitOrder(State(t, map[]), Overlap(d, e)))
  }

  lemma OverlapRuns(t: Table, id: Uuid, d: Delivery, e: Delivery)
    requires Admitted(d) == Some(id) && Admitted(e) == Some(id)
    ensures Overlapped(t, d, e) == CommitJob(CommitJob(t, Job(d, Lookup(t, id))), Job(e, Lookup(t, id)))
    ensures CommitOrder(State(t, map[]), Overlap(d, e)) == [d, e]
  {
    var s0 := State(t, map[]);
    var as4 := Overlap(d, e);
    var as3, as2, as1 := as4[..3], as4[..2], as4[..1];
    assert as4[..|as4| - 1] == as3 && as3[..|as3| - 1] == as2 && as2[..|as2| - 1] == as1 && as1[..|as1| - 1] == [];
    var jd, je := Job(d, Lookup(t, id)), Job(e, Lookup(t, id));
    assert Exec(s0, []) == s0 && CommitOrder(s0, []) == [];
    assert Exec(s0, as1) == Next(s0, Load(0, d)) && CommitOrder(s0, as1) == [];
    assert Exec(s0, as1).inFlight == map[0 := jd];
    assert Exec(s0, as2) == Next(Exec(s0, as1), Load(1, e)) && CommitOrder(s0, as2) == [];
    assert Exec(s0, as2) == State(t, map[0 := jd, 1 := je]);
    assert Exec(s0, as3).table == CommitJob(t, jd) && Exec(s0, as3).inFlight[1] == je;
    assert CommitOrder(s0, as3) == [d] && CommitOrder(s0, as4) == [d, e];
  }

  lemma RunOfTwo(t: Table, d: Delivery, e: Delivery)
    ensures Run(t, [d, e]) == Step(Step(t, d).table, e).table
  {
    var one, both := [d], [d, e];
    assert both[..|both| - 1] == one && one[..|one| - 1] == [];
    assert Run(t, one) == Step(t, d).table;
  }

  /** A late write is judged by the row that was loaded and lands on whatever is stored. */
  lemma CommitIsGuardedApply(t: Table, loaded: Option<Row>, d: Delivery, id: Uuid)
    requires Admitted(d).Some?
    ensures Lookup(CommitJob(t, Job(d, loaded)), id)
            == if Admitted(d) == Some(id) && Passes(VersionOf(loaded), d) then Apply(loaded, d) else Lookup(t, id)
  {
  }

  /** What the first handler leaves. */
  function AfterFirst(row: Option<Row>, d: Delivery): Option<Row>
    requires Admitted(d).Some?
  {
    if Passes(VersionOf(row), d) then Apply(row, d) else row
  }

  /** The row after the overlap, and after the serial run. */
  lemma OverlapRows(t: Table, id: Uuid, d: Delivery, e: Delivery)
    requires Admitted(d) == Some(id) && Admitted(e) == Some(id)
    ensures var row := Lookup(t, id);
            var first := AfterFirst(row, d);
            && Lookup(Overlapped(t, d, e), id) == (if Passes(VersionOf(row), e) then Apply(row, e) else first)
            && Lookup(Serially(t, d, e), id) == (if Passes(VersionOf(first), e) then Apply(first, e) else first)
    ensures forall other :: other != id ==>
              Lookup(Overlapped(t, d, e), other) == Lookup(Serially(t, d, e), other) == Lookup(t, other)
  {
    var row := Lookup(t, id);
    var t1 := CommitJob(t, Job(d, row));
    OverlapRuns(t, id, d, e);
    RunOfTwo(t, d, e);
    StepIsGuardedApply(row, d);
    StepIsGuardedApply(AfterFirst(row, d), e);
    forall k ensures k != id ==> Lookup(Overlapped(t, d, e), k) == Lookup(Serially(t, d, e), k) == Lookup(t, k) {
      StepIsLocal(t, d, k);
      StepIsLocal(Step(t, d).table, e, k);
      CommitIsGuardedApply(t, row, d, k);
      CommitIsGuardedApply(t1, row, e, k);
    }
    StepIsLocal(t, d, id);
    StepIsLocal(Step(t, d).table, e, id);
    CommitIsGuardedApply(t, row, d, id);
    CommitIsGuardedApply(t1, row, e, id);
  }

  /** The event leaves a field holding `stored` as it is. */
  predicate Keeps<T(==)>(write: Writer<T>, d: Delivery, stored: T) {
    write(d).None? || write(d) == Some(stored)
  }

  /** Nothing that `d` does to the field would be seen after `e`. */
  predicate Hides<T(==)>(write: Writer<T>, d: Delivery, e: Delivery, stored: T) {
    write(e).Some? || Keeps(write, d, stored)
  }

  /** The two events, each alone, leave the same in the field. */
  predicate Agree<T(==)>(write: Writer<T>, d: Delivery, e: Delivery, stored: T) {
    match (write(d), write(e))
    case (Some(x), Some(y)) => x == y
    case _ => Keeps(write, d, stored) && Keeps(write, e, stored)
  }

  /** In each of the eight content columns. */
  predicate ContentKept(r: Row, d: Delivery) {
    && Keeps(TitleWrite, d, r.title) && Keeps(DescriptionWrite, d, r.description)
    && Keeps(DurationWrite, d, r.durationMicros) && Keeps(ThumbnailWrite, d, r.thumbnailUrl)
    && Keeps(PlaylistWrite, d, r.hlsMasterPlaylist) && Keeps(StatusWrite, d, r.status)
    && Keeps(VisibilityWrite, d, r.visibilityStatus) && Keeps(PublishedWrite, d, r.publishedAt)
  }

  predicate ContentHidden(r: Row, d: Delivery, e: Delivery) {
    && Hides(TitleWrite, d, e, r.title) && Hides(DescriptionWrite, d, e, r.description)
    && Hides(DurationWrite, d, e, r.durationMicros) && Hides(ThumbnailWrite, d, e, r.thumbnailUrl)
    && Hides(PlaylistWrite, d, e, r.hlsMasterPlaylist) && Hides(StatusWrite, d, e, r.status)
    && Hides(VisibilityWrite, d, e, r.visibilityStatus) && Hides(PublishedWrite, d, e, r.publishedAt)
  }

  predicate ContentAgrees(r: Row, d: Delivery, e: Delivery) {
    && Agree(TitleWrite, d, e, r.title) && Agree(DescriptionWrite, d, e, r.description)
    && Agree(DurationWrite, d, e, r.durationMicros) && Agree(ThumbnailWrite, d, e, r.thumbnailUrl)
    && Agree(PlaylistWrite, d, e, r.hlsMasterPlaylist) && Agree(StatusWrite, d, e, r.status)
    && Agree(VisibilityWrite, d, e, r.visibilityStatus) && Agree(PublishedWrite, d, e, r.publishedAt)
  }

  /** Both events carry one version and one time. */
  predicate SameStamp(d: Delivery, e: Delivery) {
    Version(d) == Version(e) && EventTime(d) == EventTime(e)
  }

  /**
   * When the overlap does no harm, from the row both handlers load (None: no row): the first writes
   * nothing; or the second is refused either way; or both are let through, and the second is a Created
   * or hides all that the first changed; or only the overlap lets the second through, and both events
   * come to the same row; or only the serial run does, and the second would have changed nothing.
   */
  predicate OverlapIsHarmless(row: Option<Row>, d: Delivery, e: Delivery)
    requires Admitted(d).Some? && Admitted(e).Some?
  {
    Passes(VersionOf(row), d) ==>
      match (Passes(VersionOf(row), e), Passes(Some(Version(d)), e))
      case (false, false) => true
      case (true, true) => e.event.kind.VideoCreated? || (row.Some? && ContentHidden(row.value, d, e))
      case (true, false) => row.Some? && SameStamp(d, e) && ContentAgrees(row.value, d, e)
      case (false, true) =>
        var first := Apply(row, d);
        first.Some? && SameStamp(d, e) && ContentKept(first.value, e)
  }

  /** One event over a row: every column it writes, and its version and time. */
  lemma ApplyOne(row: Option<Row>, d: Delivery)
    requires Admitted(d).Some? && WellFormed(d.event)
    requires row.Some? && row.value.title != ""
    ensures Apply(row, d) == Some(Written(row.value, [d]))
  {
    assert [] + [d] == [d];
    assert Written(row.value, []) == row.value;
    ApplyWrites(row, row.value, [], d);
  }

  lemma LastOfOne<T>(write: Writer<T>, d: Delivery, stored: T)
    ensures LastWrite(write, [d], stored) == if write(d).Some? then write(d).value else stored
  {
    assert [d][..|[d]| - 1] == [];
  }

  /** The written row, column by column. */
  lemma WrittenOne(r: Row, d: Delivery)
    ensures var w := Written(r, [d]);
            && (ContentKept(r, d) <==> w == r.(version := w.version, updatedAt := w.updatedAt))
            && w.version == Version(d) && (EventTime(d).Ok? ==> w.updatedAt == EventTime(d).value)
  {
    LastOfOne(TitleWrite, d, r.title);
    LastOfOne(DescriptionWrite, d, r.description);
    LastOfOne(DurationWrite, d, r.durationMicros);
    LastOfOne(ThumbnailWrite, d, r.thumbnailUrl);
    LastOfOne(PlaylistWrite, d, r.hlsMasterPlaylist);
    LastOfOne(StatusWrite, d, r.status);
    LastOfOne(VisibilityWrite, d, r.visibilityStatus);
    LastOfOne(PublishedWrite, d, r.publishedAt);
    LastOfOne(VersionWrite, d, r.version);
    LastOfOne(UpdatedAtWrite, d, r.updatedAt);
  }

  lemma AgreeIsSameLeft<T>(write: Writer<T>, d: Delivery, e: Delivery, stored: T)
    ensures Agree(write, d, e, stored) <==> LastWrite(write, [d], stored) == LastWrite(write, [e], stored)
  {
    LastOfOne(write, d, stored);
    LastOfOne(write, e, stored);
  }

  lemma HidesIsSameLeft<T>(write: Writer<T>, d: Delivery, e: Delivery, stored: T)
    ensures Hides(write, d, e, stored)
            <==> LastWrite(write, [e], LastWrite(write, [d], stored)) == LastWrite(write, [e], stored)
  {
    LastOfOne(write, d, stored);
    LastOfOne(write, e, stored);
    LastOfOne(write, e, LastWrite(write, [d], stored));
  }

  /** An applied event never leaves an empty title, and stamps its version and its time. */
  lemma AppliedStamp(row: Option<Row>, d: Delivery)
    requires Admitted(d).Some? && Passes(VersionOf(row), d)
    ensures var first := Apply(row, d);
            first.Some? && first.value.title != ""
            && first.value.version == Version(d) && first.value.updatedAt == EventTime(d).value
  {
  }

  lemma HidingIsExact(r: Row, d: Delivery, e: Delivery)
    requires r.title != "" && Admitted(d).Some? && Admitted(e).Some?
    requires Passes(Some(r.version), d) && WellFormed(e.event)
    ensures Apply(Apply(Some(r), d), e) == Apply(Some(r), e) <==> ContentHidden(r, d, e)
  {
    AppliedStamp(Some(r), d);
    ApplyOne(Some(r), d);
    ApplyOne(Some(r), e);
    ApplyOne(Apply(Some(r), d), e);
    WrittenOne(r, e);
    WrittenOne(Written(r, [d]), e);
    HidesIsSameLeft(TitleWrite, d, e, r.title);
    HidesIsSameLeft(DescriptionWrite, d, e, r.description);
    HidesIsSameLeft(DurationWrite, d, e, r.durationMicros);
    HidesIsSameLeft(ThumbnailWrite, d, e, r.thumbnailUrl);
    HidesIsSameLeft(PlaylistWrite, d, e, r.hlsMasterPlaylist);
    HidesIsSameLeft(StatusWrite, d, e, r.status);
    HidesIsSameLeft(VisibilityWrite, d, e, r.visibilityStatus);
    HidesIsSameLeft(PublishedWrite, d, e, r.publishedAt);
  }

  lemma AgreementIsExact(r: Row, d: Delivery, e: Delivery)
    requires r.title != "" && Admitted(d).Some? && Admitted(e).Some?
    requires WellFormed(d.event) && WellFormed(e.event)
    ensures Apply(Some(r), d) == Apply(Some(r), e) <==> SameStamp(d, e) && ContentAgrees(r, d, e)
  {
    ApplyOne(Some(r), d);
    ApplyOne(Some(r), e);
    WrittenOne(r, d);
    WrittenOne(r, e);
    AgreeIsSameLeft(TitleWrite, d, e, r.title);
    AgreeIsSameLeft(DescriptionWrite, d, e, r.description);
    AgreeIsSameLeft(DurationWrite, d, e, r.durationMicros);
    AgreeIsSameLeft(ThumbnailWrite, d, e, r.thumbnailUrl);
    AgreeIsSameLeft(PlaylistWrite, d, e, r.hlsMasterPlaylist);
    AgreeIsSameLeft(StatusWrite, d, e, r.status);
    AgreeIsSameLeft(VisibilityWrite, d, e, r.visibilityStatus);
    AgreeIsSameLeft(PublishedWrite, d, e, r.publishedAt);
  }

  lemma KeepingIsExact(row: Option<Row>, d: Delivery, e: Delivery)
    requires Admitted(d).Some? && Admitted(e).Some? && Passes(VersionOf(row), d) && WellFormed(e.event)
    requires Apply(row, d).Some?
    ensures Apply(Apply(row, d), e) == Apply(row, d) <==> SameStamp(d, e) && ContentKept(Apply(row, d).value, e)
  {
    AppliedStamp(row, d);
    ApplyOne(Apply(row, d), e);
    WrittenOne(Apply(row, d).value, e);
  }

  /**
   * The exact cost of the missing exclusion. Two overlapping handlers of one video, whatever the
   * events and however the database behaves, leave the table that one after the other would leave if
   * and only if the overlap is harmless for the row they both loaded. (Reachable rows have a title.)
   */
  lemma OverlapIsSerialIff(t: Table, id: Uuid, d: Delivery, e: Delivery)
    requires Admitted(d) == Some(id) && Admitted(e) == Some(id)
    requires id in t ==> t[id].title != ""
    ensures Overlapped(t, d, e) == Serially(t, d, e) <==> OverlapIsHarmless(Lookup(t, id), d, e)
  {
    var row := Lookup(t, id);
    OverlapRows(t, id, d, e);
    if Lookup(Overlapped(t, d, e), id) == Lookup(Serially(t, d, e), id) {
      SameRowsSameTable(Overlapped(t, d, e), Serially(t, d, e));
    }
    if Passes(VersionOf(row), d) {
      AppliedStamp(row, d);
      match (Passes(VersionOf(row), e), Passes(Some(Version(d)), e))
      case (false, false) =>
      case (true, true) => if !e.event.kind.VideoCreated? { HidingIsExact(row.value, d, e); }
      case (true, false) => AgreementIsExact(row.value, d, e);
      case (false, true) => KeepingIsExact(row, d, e);
    }
  }

  /**
   * When two events that pass the guard overlap, the second write erases the first, whatever it was;
   * the version then stored is that of the serial run exactly when the second event ignores the
   * stored version or is not older than the first.
   */
  lemma OverlapLosesTheFirst(t: Table, id: Uuid, d: Delivery, e: Delivery)
    requires Admitted(d) == Some(id) && Admitted(e) == Some(id)
    requires Passes(VersionOf(Lookup(t, id)), d) && Passes(VersionOf(Lookup(t, id)), e)
    ensures var end, serial := Overlapped(t, d, e), Serially(t, d, e);
            && id in end && id in serial && Lookup(end, id) == Apply(Lookup(t, id), e)
            && (end[id].version == serial[id].version <==> Resets(e) || Version(d) <= Version(e))
  {
    OverlapRows(t, id, d, e);
    AppliedStamp(Lookup(t, id), d);
    AppliedStamp(Lookup(t, id), e);
  }

  function UpdateOf(version: int, description: Option<string>, durationMicros: Option<int>): Delivery {
    Delivery(
      Event(VideoUpdated, Canonical(Uuid(0)), At(version), version,
            Updated(None, description, durationMicros, None, None, None, None, None, version)),
      None, ZERO_TIME, Up)
  }

  /** A description lost for good: version 2 sets it, version 3 sets the duration and had not seen it. */
  lemma OverlapCanLoseAField()
    ensures var row := Row("t", None, None, None, None, None, None, None, 1, 1);
            var t: Table := map[Uuid(0) := row];
            var d, e := UpdateOf(2, Some("about"), None), UpdateOf(3, None, Some(5));
            && Lookup(Serially(t, d, e), Uuid(0))
               == Some(row.(description := Some("about"), durationMicros := Some(5), version := 3, updatedAt := 3))
            && Lookup(Overlapped(t, d, e), Uuid(0))
               == Some(row.(durationMicros := Some(5), version := 3, updatedAt := 3))
  {
    var t: Table := map[Uuid(0) := Row("t", None, None, None, None, None, None, None, 1, 1)];
    OverlapRows(t, Uuid(0), UpdateOf(2, Some("about"), None), UpdateOf(3, None, Some(5)));
  }
}
