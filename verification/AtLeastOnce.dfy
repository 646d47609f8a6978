/**
 * At-least-once delivery against delivering each event of one video exactly once. Attempts may fail,
 * repeat and overtake each other; the exact schedules that are harmless for every history are those
 * in which, after the last Created, each later event is handled before any of its successors.
 */
module AtLeastOnce {
  import opened Prelude
  import opened Projection
  import opened CatalogEvents
  import opened DeliveryRuns
  import opened VersionGuard
  import opened Workers

  /** One attempt to handle event number `index` of the source's history. */
  datatype Attempt = Attempt(index: nat, clock: Time, db: Db)

  predicate Indexed(attempts: seq<Attempt>, n: nat) {
    forall i :: 0 <= i < |attempts| ==> attempts[i].index < n
  }

  /** An event of the source, and the aggregate id of the inbox row it arrives in. */
  datatype Message = Message(event: Event, inboxId: Option<IdText>)

  function MessageTarget(m: Message): Option<Uuid> {
    Target(Delivery(m.event, m.inboxId, ZERO_TIME, Up))
  }

  /** The handler ignores this kind of event. */
  predicate Skipped(m: Message) {
    m.event.kind.Unsupported?
  }

  predicate IsSkipped(src: seq<Message>, k: nat) {
    k < |src| && Skipped(src[k])
  }

  /** An event the handler ignores, or one with its payload and a time of its own. */
  predicate Handleable(m: Message) {
    if Skipped(m) then !m.event.occurredAt.Malformed?
    else WellFormed(m.event) && m.event.occurredAt.At? && m.event.occurredAt.time != ZERO_TIME
  }

  /**
   * The history of one video as its owner writes it: Created first, then versions that increase, with
   * events the handler ignores anywhere in between, at any version.
   */
  predicate History(src: seq<Message>, id: Uuid) {
    && src != []
    && (forall i :: 0 <= i < |src| ==>
          MessageTarget(src[i]) == Some(id) && Handleable(src[i]) && (src[i].event.kind.VideoCreated? <==> i == 0))
    && (forall i :: 1 <= i < |src| && !Skipped(src[i]) ==> EffectiveVersion(src[i].event) != 0)
    && (forall i, j :: 0 <= i < j < |src| && !Skipped(src[i]) && !Skipped(src[j]) ==>
          EffectiveVersion(src[i].event) < EffectiveVersion(src[j].event))
  }

  function Deliver(src: seq<Message>, a: Attempt): Delivery
    requires a.index < |src|
  {
    Delivery(src[a.index].event, src[a.index].inboxId, a.clock, a.db)
  }

  function Deliveries(src: seq<Message>, attempts: seq<Attempt>): (ds: seq<Delivery>)
    requires Indexed(attempts, |src|)
    ensures |ds| == |attempts|
    ensures forall i :: 0 <= i < |ds| ==> ds[i] == Deliver(src, attempts[i])
  {
    seq(|attempts|, i requires 0 <= i < |attempts| => Deliver(src, attempts[i]))
  }

  /** Each event once, in order, with nothing failing. */
  function OnceEach(n: nat): (attempts: seq<Attempt>)
    ensures Indexed(attempts, n) && |attempts| == n
  {
    seq(n, i requires 0 <= i < n => Attempt(i, ZERO_TIME, Up))
  }

  lemma HistoryIsAdmitted(src: seq<Message>, id: Uuid, attempts: seq<Attempt>)
    requires History(src, id) && Indexed(attempts, |src|)
    ensures AllAdmitted(Deliveries(src, attempts))
  {
    forall i | 0 <= i < |attempts| ensures Admitted(Deliver(src, attempts[i])).Some? {
      assert MessageTarget(src[attempts[i].index]) == Some(id);
    }
  }

  function Outcome(src: seq<Message>, id: Uuid, attempts: seq<Attempt>): Option<Row>
    requires History(src, id) && Indexed(attempts, |src|)
  {
    HistoryIsAdmitted(src, id, attempts);
    RunRow(None, Deliveries(src, attempts))
  }

  /** No repository call that this attempt needs fails; Created (number 0) loads nothing. */
  predicate Succeeds(a: Attempt) {
    a.db.Up? || (a.db.LoadFails? && a.index == 0)
  }

  /** The event numbers of the attempts that succeed, in order. */
  function Handled(attempts: seq<Attempt>): (idx: seq<nat>)
    ensures |idx| <= |attempts|
  {
    if attempts == [] then []
    else
      var front, last := Handled(attempts[..|attempts| - 1]), attempts[|attempts| - 1];
      if Succeeds(last) then front + [last.index] else front
  }

  /** Position `z` holds the last Created. */
  predicate LastCreatedAt(idx: seq<nat>, z: int) {
    0 <= z < |idx| && idx[z] == 0 && forall q :: z < q < |idx| ==> idx[q] != 0
  }

  /** After position `z`, event `i` comes, and before any later event of the history. */
  predicate InOrderAfter(idx: seq<nat>, z: int, i: nat) {
    exists p :: 0 <= z < p < |idx| && idx[p] == i && forall q :: z < q < p ==> idx[q] < i
  }

  ghost predicate Complete(idx: seq<nat>, n: nat) {
    exists z :: LastCreatedAt(idx, z) && forall i :: 1 <= i < n ==> InOrderAfter(idx, z, i)
  }

  /** The schedule is indistinguishable from exactly-once, whatever the events carry. */
  ghost predicate Harmless(attempts: seq<Attempt>, n: nat)
    requires Indexed(attempts, n)
  {
    forall src: seq<Message>, id: Uuid :: |src| == n && History(src, id) ==>
      Outcome(src, id, attempts) == Outcome(src, id, OnceEach(n))
  }

  /** The event numbers written since the last Created: None when there was no Created. */
  function Progress(idx: seq<nat>): Option<seq<nat>> {
    if idx == [] then None
    else
      Advance(Progress(idx[..|idx| - 1]), idx[|idx| - 1])
  }

  function Advance(front: Option<seq<nat>>, k: nat): Option<seq<nat>> {
    if k == 0 then Some([])
    else if front.None? then None
    else if LastOf(front.value) < k then Some(front.value + [k])
    else front
  }

  function LastOf(p: seq<nat>): nat {
    if p == [] then 0 else p[|p| - 1]
  }

  predicate Within(p: seq<nat>, n: nat) {
    forall i :: 0 <= i < |p| ==> 1 <= p[i] < n
  }

  /** Without the events the handler ignores. */
  function Supported(src: seq<Message>, idx: seq<nat>): (r: seq<nat>)
    ensures forall i :: i in r ==> i in idx && !IsSkipped(src, i)
  {
    if idx == [] then []
    else
      var front, last := Supported(src, idx[..|idx| - 1]), idx[|idx| - 1];
      if IsSkipped(src, last) then front else front + [last]
  }

  /** The numbers of events that can be written after the Created. */
  predicate Replayable(src: seq<Message>, p: seq<nat>) {
    forall i :: 0 <= i < |p| ==> 1 <= p[i] < |src| && !Skipped(src[p[i]])
  }

  /** The row after writing, unguarded, the Created and then the events numbered `p`. */
  function Replay(src: seq<Message>, id: Uuid, p: seq<nat>): Row
    requires History(src, id) && Replayable(src, p)
  {
    if p == [] then CreatedRow(src[0].event, src[0].event.occurredAt.time)
    else
      var e := src[p[|p| - 1]].event;
      Merge(e, e.occurredAt.time, Replay(src, id, p[..|p| - 1]))
  }

  lemma {:induction false} ProgressWithin(idx: seq<nat>, n: nat)
    requires forall i :: 0 <= i < |idx| ==> idx[i] < n
    ensures Progress(idx).Some? ==> Within(Progress(idx).value, n)
  {
    if idx != [] {
      ProgressWithin(idx[..|idx| - 1], n);
    }
  }

  lemma {:induction false} HandledWithin(attempts: seq<Attempt>, n: nat)
    requires Indexed(attempts, n)
    ensures forall i :: 0 <= i < |Handled(attempts)| ==> Handled(attempts)[i] < n
  {
    if attempts != [] {
      HandledWithin(attempts[..|attempts| - 1], n);
    }
  }

  lemma ReplayVersion(src: seq<Message>, id: Uuid, p: seq<nat>)
    requires History(src, id) && Replayable(src, p)
    ensures Replay(src, id, p).version == EffectiveVersion(src[LastOf(p)].event)
  {
  }

  function RowAt(src: seq<Message>, id: Uuid, p: Option<seq<nat>>): Option<Row>
    requires History(src, id) && (p.Some? ==> Replayable(src, p.value))
  {
    if p.None? then None else Some(Replay(src, id, p.value))
  }

  lemma AttemptAdvances(src: seq<Message>, id: Uuid, p: Option<seq<nat>>, a: Attempt)
    requires History(src, id) && a.index < |src| && (p.Some? ==> Replayable(src, p.value))
    ensures var q := if Succeeds(a) && !Skipped(src[a.index]) then Advance(p, a.index) else p;
            && (q.Some? ==> Replayable(src, q.value))
            && Admitted(Deliver(src, a)).Some?
            && StepRow(RowAt(src, id, p), Deliver(src, a)) == RowAt(src, id, q)
  {
    var d := Deliver(src, a);
    var k := a.index;
    var row := RowAt(src, id, p);
    assert MessageTarget(src[k]) == Some(id);
    StepIsGuardedApply(row, d);
    if p.Some? && !Skipped(src[k]) {
      ReplayVersion(src, id, p.value);
      assert Passes(VersionOf(row), d) <==> Succeeds(a) && (k == 0 || LastOf(p.value) < k);
      assert (p.value + [k])[..|p.value|] == p.value;
    }
  }

  /** The guarded run over the attempts writes exactly the progress of the event numbers that count. */
  lemma {:induction false} OutcomeIsReplay(src: seq<Message>, id: Uuid, attempts: seq<Attempt>)
    requires History(src, id) && Indexed(attempts, |src|)
    ensures var p := Progress(Supported(src, Handled(attempts)));
            (p.Some? ==> Replayable(src, p.value)) && Outcome(src, id, attempts) == RowAt(src, id, p)
  {
    HistoryIsAdmitted(src, id, attempts);
    if attempts != [] {
      var n := |attempts| - 1;
      OutcomeIsReplay(src, id, attempts[..n]);
      assert Deliveries(src, attempts)[..n] == Deliveries(src, attempts[..n]);
      var before, idx := Supported(src, Handled(attempts[..n])), Supported(src, Handled(attempts));
      AttemptAdvances(src, id, Progress(before), attempts[n]);
      if Succeeds(attempts[n]) {
        assert Handled(attempts)[..|Handled(attempts)| - 1] == Handled(attempts[..n]);
        if !Skipped(src[attempts[n].index]) {
          assert idx == before + [attempts[n].index] && idx[..|idx| - 1] == before;
        }
      }
    }
  }

  predicate Increasing(p: seq<nat>) {
    forall i, j :: 0 <= i < j < |p| ==> p[i] < p[j]
  }

  /** `1, 2, ..., n - 1`. */
  function Upto(n: nat): (p: seq<nat>)
    requires n >= 1
    ensures |p| == n - 1 && forall j :: 0 <= j < |p| ==> p[j] == j + 1
  {
    seq(n - 1, j requires 0 <= j < n - 1 => j + 1)
  }

  /** Nothing handled after position `z` is beyond `m`, and `m` itself was handled unless it is 0. */
  predicate Reached(idx: seq<nat>, z: int, m: nat)
    requires 0 <= z < |idx|
  {
    && (forall q :: z < q < |idx| ==> idx[q] <= m)
    && (m == 0 || exists q :: z < q < |idx| && idx[q] == m)
  }

  lemma InOrderSnoc(idx: seq<nat>, z: int, i: nat, m: nat)
    requires idx != [] && 0 <= z < |idx| - 1 && Reached(idx[..|idx| - 1], z, m) && i >= 1
    ensures var n := |idx| - 1;
            InOrderAfter(idx, z, i) <==> InOrderAfter(idx[..n], z, i) || (i == idx[n] && m < i)
  {
    var n := |idx| - 1;
    assert forall q :: 0 <= q < n ==> idx[q] == idx[..n][q];
    if p :| 0 <= z < p < |idx| && idx[p] == i && forall q :: z < q < p ==> idx[q] < i {
      if p < n {
        assert idx[..n][p] == i;
      } else if m != 0 {
        var q :| z < q < n && idx[..n][q] == m;
        assert idx[q] < i;
      }
    }
    if p :| 0 <= z < p < n && idx[..n][p] == i && forall q :: z < q < p ==> idx[..n][q] < i {
      assert idx[p] == i;
    }
    if i == idx[n] && m < i {
      assert idx[n] == i && forall q :: z < q < n ==> idx[q] < i;
    }
  }

  /** `Progress` collects exactly the events that came in order after the last Created. */
  lemma {:induction false} ProgressMembers(idx: seq<nat>)
    ensures Progress(idx).None? <==> forall z :: !LastCreatedAt(idx, z)
    ensures Progress(idx).Some? ==>
      var p := Progress(idx).value;
      Increasing(p) && Within(p, LastOf(p) + 1)
      && forall z :: LastCreatedAt(idx, z) ==>
           Reached(idx, z, LastOf(p)) && forall i :: i >= 1 ==> (i in p <==> InOrderAfter(idx, z, i))
  {
    if idx != [] {
      var n := |idx| - 1;
      var front, k := idx[..n], idx[n];
      ProgressMembers(front);
      if k == 0 {
        assert LastCreatedAt(idx, n);
      } else {
        assert forall z :: LastCreatedAt(idx, z) <==> LastCreatedAt(front, z);
        if Progress(front).Some? {
          var m := LastOf(Progress(front).value);
          forall z | LastCreatedAt(idx, z)
            ensures Reached(idx, z, LastOf(Progress(idx).value))
            ensures forall i :: i >= 1 ==> (i in Progress(idx).value <==> InOrderAfter(idx, z, i))
          {
            assert LastCreatedAt(front, z);
            assert forall q :: 0 <= q < n ==> front[q] == idx[q];
            if m != 0 {
              var q :| z < q < n && front[q] == m;
              assert idx[q] == m;
            }
            assert idx[n] == k;
            forall i | i >= 1 ensures i in Progress(idx).value <==> InOrderAfter(idx, z, i) {
              InOrderSnoc(idx, z, i, m);
            }
          }
        }
      }
    }
  }

  /** Increasing sequences are determined by their members. */
  lemma {:induction false} IncreasingIsUnique(p: seq<nat>, q: seq<nat>)
    requires Increasing(p) && Increasing(q) && forall i :: i in p <==> i in q
    ensures p == q
  {
    assert p != [] ==> p[0] in p;
    assert q != [] ==> q[0] in q;
    if p == [] {
    } else {
      var n := |p| - 1;
      assert p[n] in p && q[|q| - 1] in q;
      var m := |q| - 1;
      assert p[n] == q[m];
      forall i ensures i in p[..n] <==> i in q[..m] {
        assert i in p[..n] <==> i in p && i != p[n];
        assert i in q[..m] <==> i in q && i != q[m];
      }
      IncreasingIsUnique(p[..n], q[..m]);
      assert p == p[..n] + [p[n]] && q == q[..m] + [q[m]];
    }
  }

  lemma AllMembersIsUpto(p: seq<nat>, n: nat)
    requires n >= 1 && Increasing(p) && Within(p, n) && forall i :: 1 <= i < n ==> i in p
    ensures p == Upto(n)
  {
    forall i ensures i in p <==> i in Upto(n) {
      assert 1 <= i < n ==> Upto(n)[i - 1] == i;
    }
    IncreasingIsUnique(p, Upto(n));
  }

  /** Events the handler ignores only ever hold others up: dropping them loses no progress. */
  lemma {:induction false} DroppingTheSkipped(src: seq<Message>, idx: seq<nat>)
    requires !IsSkipped(src, 0)
    ensures var p, q := Progress(idx), Progress(Supported(src, idx));
            && (p.Some? <==> q.Some?)
            && (p.Some? ==>
                  && LastOf(q.value) <= LastOf(p.value)
                  && (forall i :: i in p.value && !IsSkipped(src, i) ==> i in q.value)
                  && (forall i :: i in q.value ==> !IsSkipped(src, i)))
  {
    if idx != [] {
      var n := |idx| - 1;
      DroppingTheSkipped(src, idx[..n]);
      var all := Supported(src, idx);
      if !IsSkipped(src, idx[n]) {
        assert all[..|all| - 1] == Supported(src, idx[..n]);
      }
    }
  }

  /** A schedule is complete exactly when its progress is the whole history. */
  lemma CompleteIffFullProgress(idx: seq<nat>, n: nat)
    requires n >= 1 && forall i :: 0 <= i < |idx| ==> idx[i] < n
    ensures Complete(idx, n) <==> Progress(idx) == Some(Upto(n))
    ensures !Complete(idx, n) && Progress(idx).Some? ==> exists i :: 1 <= i < n && i !in Progress(idx).value
  {
    ProgressMembers(idx);
    ProgressWithin(idx, n);
    if Progress(idx).Some? {
      var p := Progress(idx).value;
      var z :| LastCreatedAt(idx, z);
      assert forall y :: LastCreatedAt(idx, y) ==> y == z;
      if forall i :: 1 <= i < n ==> i in p {
        AllMembersIsUpto(p, n);
      } else {
        var i :| 1 <= i < n && i !in p;
        assert Upto(n)[i - 1] == i;
      }
    }
  }

  lemma OnceEachSnoc(n: nat)
    requires n >= 1
    ensures Handled(OnceEach(n)) == Handled(OnceEach(n - 1)) + [n - 1]
  {
    var all := OnceEach(n);
    assert all[..n - 1] == OnceEach(n - 1);
    assert Succeeds(all[n - 1]);
  }

  lemma {:induction false} OnceEachIsFullProgress(n: nat)
    requires n >= 1
    ensures Progress(Handled(OnceEach(n))) == Some(Upto(n))
  {
    var idx := Handled(OnceEach(n));
    OnceEachSnoc(n);
    assert idx[..|idx| - 1] == Handled(OnceEach(n - 1));
    if n > 1 {
      OnceEachIsFullProgress(n - 1);
      assert Upto(n) == Upto(n - 1) + [n - 1];
    }
  }

  /** Complete for one history: only the events that count have to come, and only among themselves in order. */
  ghost predicate CompleteFor(src: seq<Message>, idx: seq<nat>) {
    var own := Supported(src, idx);
    exists z :: LastCreatedAt(own, z) && forall i :: 1 <= i < |src| && !Skipped(src[i]) ==> InOrderAfter(own, z, i)
  }

  lemma CompleteForAll(src: seq<Message>, idx: seq<nat>)
    requires src != [] && !Skipped(src[0])
    requires Complete(idx, |src|) && forall i :: 0 <= i < |idx| ==> idx[i] < |src|
    ensures CompleteFor(src, idx)
  {
    var own := Supported(src, idx);
    CompleteIffFullProgress(idx, |src|);
    DroppingTheSkipped(src, idx);
    ProgressMembers(own);
    var z :| LastCreatedAt(own, z);
    forall i | 1 <= i < |src| && !Skipped(src[i]) ensures InOrderAfter(own, z, i) {
      assert Upto(|src|)[i - 1] == i;
    }
  }

  /** The progress a complete schedule makes through a history is all of it that counts. */
  lemma CompleteForIsFullProgress(src: seq<Message>, idx: seq<nat>)
    requires src != [] && CompleteFor(src, idx) && forall i :: 0 <= i < |idx| ==> idx[i] < |src|
    ensures var q := Progress(Supported(src, idx));
            q.Some? && Increasing(q.value)
            && forall i :: i in q.value <==> 1 <= i < |src| && !IsSkipped(src, i)
  {
    var own := Supported(src, idx);
    forall i | 0 <= i < |own| ensures own[i] < |src| {
      assert own[i] in idx;
    }
    ProgressMembers(own);
    ProgressWithin(own, |src|);
    ProgressIsMade(own);
    var q := Progress(own).value;
    var z :| LastCreatedAt(own, z) && forall i :: 1 <= i < |src| && !Skipped(src[i]) ==> InOrderAfter(own, z, i);
    forall i ensures i in q <==> 1 <= i < |src| && !IsSkipped(src, i) {
      if i in q {
        assert i in own && !IsSkipped(src, i);
      }
    }
  }

  lemma {:induction false} ProgressIsMade(idx: seq<nat>)
    ensures Progress(idx).Some? ==> forall i :: i in Progress(idx).value ==> i in idx
  {
    if idx != [] {
      ProgressIsMade(idx[..|idx| - 1]);
    }
  }

  const SEEN := "seen"

  /** A history in which event number `i`, and no other, sets the description. */
  function Witness(n: nat, i: nat): (src: seq<Message>)
    requires 1 <= n
    ensures |src| == n && History(src, Uuid(0)) && forall k :: 0 <= k < n ==> !Skipped(src[k])
  {
    seq(n, k requires 0 <= k < n => Message(
      if k == 0 then
        Event(VideoCreated, Canonical(Uuid(0)), At(1), 1, Created("t", None, None, "", None, 1))
      else
        Event(VideoUpdated, Canonical(Uuid(0)), At(1), k + 1,
              Updated(None, if k == i then Some(SEEN) else None, None, None, None, None, None, None, k + 1)),
      None))
  }

  lemma {:induction false} WitnessTells(n: nat, i: nat, p: seq<nat>)
    requires 1 <= i < n && Replayable(Witness(n, i), p)
    ensures Replay(Witness(n, i), Uuid(0), p).description == if i in p then Some(SEEN) else None
  {
    if p != [] {
      WitnessTells(n, i, p[..|p| - 1]);
    }
  }

  lemma {:induction false} NothingSkipped(src: seq<Message>, idx: seq<nat>)
    requires forall k :: 0 <= k < |src| ==> !Skipped(src[k])
    ensures Supported(src, idx) == idx
  {
    if idx != [] {
      NothingSkipped(src, idx[..|idx| - 1]);
    }
  }

  /** A schedule complete for its history leaves what delivering every event once leaves. */
  lemma CompleteIsHarmless(src: seq<Message>, id: Uuid, attempts: seq<Attempt>)
    requires History(src, id) && Indexed(attempts, |src|) && CompleteFor(src, Handled(attempts))
    ensures Outcome(src, id, attempts) == Outcome(src, id, OnceEach(|src|))
  {
    var n := |src|;
    var idx, once := Handled(attempts), Handled(OnceEach(n));
    HandledWithin(attempts, n);
    HandledWithin(OnceEach(n), n);
    OnceEachIsFullProgress(n);
    CompleteIffFullProgress(once, n);
    CompleteForAll(src, once);
    CompleteForIsFullProgress(src, idx);
    CompleteForIsFullProgress(src, once);
    IncreasingIsUnique(Progress(Supported(src, idx)).value, Progress(Supported(src, once)).value);
    OutcomeIsReplay(src, id, attempts);
    OutcomeIsReplay(src, id, OnceEach(n));
  }

  /** An incomplete one does not, for the history in which what it misses is the only description. */
  lemma IncompleteIsHarmful(attempts: seq<Attempt>, n: nat)
    requires n >= 1 && Indexed(attempts, n) && !Complete(Handled(attempts), n)
    ensures !Harmless(attempts, n)
  {
    var idx, once := Handled(attempts), Handled(OnceEach(n));
    HandledWithin(attempts, n);
    CompleteIffFullProgress(idx, n);
    OnceEachIsFullProgress(n);
    var i := if Progress(idx).None? then 0 else var i :| 1 <= i < n && i !in Progress(idx).value; i;
    var src := Witness(n, i);
    NothingSkipped(src, idx);
    NothingSkipped(src, once);
    OutcomeIsReplay(src, Uuid(0), attempts);
    OutcomeIsReplay(src, Uuid(0), OnceEach(n));
    if Progress(idx).Some? {
      WitnessTells(n, i, Progress(idx).value);
      WitnessTells(n, i, Upto(n));
      assert Upto(n)[i - 1] == i;
    }
    assert Outcome(src, Uuid(0), attempts) != Outcome(src, Uuid(0), OnceEach(n));
  }

  /**
   * At-least-once equals exactly-once, exactly. A schedule of attempts ends in the row that delivering
   * every event once would leave, for every history of that length, if and only if after the last
   * Created handled each later event is handled at least once before any of its successors. Any number
   * of failed attempts and of repeats of non-Created events is harmless; so is a repeated Created that
   * is followed by the rest of the history again, and no other.
   */
  lemma AtLeastOnceIffComplete(attempts: seq<Attempt>, n: nat)
    requires n >= 1 && Indexed(attempts, n)
    ensures Harmless(attempts, n) <==> Complete(Handled(attempts), n)
  {
    if Complete(Handled(attempts), n) {
      forall src: seq<Message>, id: Uuid | |src| == n && History(src, id)
        ensures Outcome(src, id, attempts) == Outcome(src, id, OnceEach(n))
      {
        HandledWithin(attempts, n);
        CompleteForAll(src, Handled(attempts));
        CompleteIsHarmless(src, id, attempts);
      }
    } else {
      IncompleteIsHarmful(attempts, n);
    }
  }

  /**
   * The whole consumer. However the load and write steps of any number of workers interleave, whatever
   * fails and whatever else is delivered, as long as no two handlers of one video overlap: if what was
   * written for a video, in the order of the writes, is a complete schedule of its history, its row is
   * the one that handling each of its events once, in order, would have left.
   */
  lemma InterleavedAtLeastOnceIsExactlyOnce(s: State, actions: seq<Action>, src: seq<Message>, id: Uuid,
                                            attempts: seq<Attempt>)
    requires s.inFlight == map[] && AlwaysExclusive(s, actions) && id !in s.table
    requires History(src, id) && Indexed(attempts, |src|) && CompleteFor(src, Handled(attempts))
    requires Only(CommitOrder(s, actions), id) == Deliveries(src, attempts)
    ensures Lookup(Exec(s, actions).table, id) == Outcome(src, id, OnceEach(|src|))
  {
    InterleavingsAreSerial(s, actions);
    RunIsPerVideo(s.table, CommitOrder(s, actions), id);
    HistoryIsAdmitted(src, id, attempts);
    CompleteIsHarmless(src, id, attempts);
  }

  /**
   * The documents promise that a repeated event has no effect. A Created repeated at the end undoes
   * every update: no schedule that ends in one is harmless once the history has a second event.
   */
  lemma RepeatedCreatedIsHarmful(attempts: seq<Attempt>, n: nat)
    requires n >= 2 && Indexed(attempts, n)
    requires attempts != [] && attempts[|attempts| - 1].index == 0 && Succeeds(attempts[|attempts| - 1])
    ensures !Harmless(attempts, n)
  {
    var idx := Handled(attempts);
    assert idx[|idx| - 1] == 0;
    forall z | LastCreatedAt(idx, z) ensures !InOrderAfter(idx, z, 1) {
      assert z == |idx| - 1;
    }
    AtLeastOnceIffComplete(attempts, n);
  }
}
