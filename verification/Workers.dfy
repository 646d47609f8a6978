/**
 * Several workers handle events at once. A handler first loads its row and later writes it; the
 * steps of different workers interleave in any way, and a handler may be abandoned in between.
 */
module Workers {
  import opened Prelude
  import opened Projection
  import opened CatalogEvents
  import opened DeliveryRuns
  import opened VersionGuard

  datatype Job = Job(delivery: Delivery, loaded: Option<Row>)

  datatype State = State(table: Table, inFlight: map<nat, Job>)

  datatype Action = Load(worker: nat, delivery: Delivery) | Commit(worker: nat) | Abandon(worker: nat)

  function Loaded(t: Table, d: Delivery): Option<Row> {
    if Admitted(d).None? then None else Lookup(t, Admitted(d).value)
  }

  /** Decide on the row loaded earlier, write over whatever is stored now. */
  function CommitJob(t: Table, job: Job): Table {
    var d := job.delivery;
    if Admitted(d).None? then t
    else
      var id := Admitted(d).value;
      Store(t, id, Settle(d.event, EventTime(d).value, d.db, job.loaded, Lookup(t, id))).table
  }

  function Next(s: State, a: Action): State {
    match a
    case Load(w, d) =>
      if w in s.inFlight then s else s.(inFlight := s.inFlight[w := Job(d, Loaded(s.table, d))])
    case Commit(w) =>
      if w in s.inFlight then State(CommitJob(s.table, s.inFlight[w]), s.inFlight - {w}) else s
    case Abandon(w) => s.(inFlight := s.inFlight - {w})
  }

  function Exec(s: State, actions: seq<Action>): State {
    if actions == [] then s else Next(Exec(s, actions[..|actions| - 1]), actions[|actions| - 1])
  }

  predicate Commits(s: State, a: Action) {
    a.Commit? && a.worker in s.inFlight
  }

  /** The deliveries that reach their write, in the order of the writes. */
  function CommitOrder(s: State, actions: seq<Action>): seq<Delivery> {
    if actions == [] then []
    else
      var front, last := actions[..|actions| - 1], actions[|actions| - 1];
      var before := Exec(s, front);
      if Commits(before, last)
      then CommitOrder(s, front) + [before.inFlight[last.worker].delivery]
      else CommitOrder(s, front)
  }

  /** At most one handler is in flight per video. */
  ghost predicate Exclusive(s: State) {
    forall w, x :: w in s.inFlight && x in s.inFlight && w != x && Admitted(s.inFlight[w].delivery).Some? ==>
      Admitted(s.inFlight[w].delivery) != Admitted(s.inFlight[x].delivery)
  }

  /** ... at every moment of the schedule. */
  ghost predicate AlwaysExclusive(s: State, actions: seq<Action>) {
    Exclusive(Exec(s, actions)) && (actions != [] ==> AlwaysExclusive(s, actions[..|actions| - 1]))
  }

  /** What every handler in flight loaded is still what is stored. */
  ghost predicate Current(s: State) {
    forall w :: w in s.inFlight ==> s.inFlight[w].loaded == Loaded(s.table, s.inFlight[w].delivery)
  }

  /** A write based on a current row is an atomic step, and leaves the other handlers' rows alone. */
  lemma NextIsSerial(s: State, a: Action)
    requires Current(s) && Exclusive(s)
    ensures Next(s, a).table
            == if Commits(s, a) then Step(s.table, s.inFlight[a.worker].delivery).table else s.table
    ensures Current(Next(s, a))
  {
    if Commits(s, a) {
      var job := s.inFlight[a.worker];
      assert CommitJob(s.table, job) == Step(s.table, job.delivery).table;
      forall w | w in s.inFlight && w != a.worker
        ensures Loaded(Next(s, a).table, s.inFlight[w].delivery) == Loaded(s.table, s.inFlight[w].delivery)
      {
        var d := s.inFlight[w].delivery;
        if Admitted(d).Some? {
          StepIsLocal(s.table, job.delivery, Admitted(d).value);
        }
      }
    }
  }

  lemma RunSnoc(t: Table, ds: seq<Delivery>, d: Delivery)
    ensures Run(t, ds + [d]) == Step(Run(t, ds), d).table
  {
    assert (ds + [d])[..|ds + [d]| - 1] == ds;
  }

  /**
   * Serialisability. With at most one handler in flight per video, every interleaving of any number
   * of workers leaves the table that handling the events one at a time, in the order of their
   * writes, would leave.
   */
  lemma {:induction false} InterleavingsAreSerial(s: State, actions: seq<Action>)
    requires s.inFlight == map[] && AlwaysExclusive(s, actions)
    ensures Exec(s, actions).table == Run(s.table, CommitOrder(s, actions))
    ensures Current(Exec(s, actions))
  {
    if actions != [] {
      var front, last := actions[..|actions| - 1], actions[|actions| - 1];
      InterleavingsAreSerial(s, front);
      var before := Exec(s, front);
      NextIsSerial(before, last);
      if Commits(before, last) {
        RunSnoc(s.table, CommitOrder(s, front), before.inFlight[last.worker].delivery);
      }
    }
  }

  /** Whatever the interleaving, exclusive or not, no row disappears. */
  lemma {:induction false} ExecKeepsKeys(s: State, actions: seq<Action>)
    ensures s.table.Keys <= Exec(s, actions).table.Keys
  {
    if actions != [] {
      ExecKeepsKeys(s, actions[..|actions| - 1]);
    }
  }
}
