/**
 * What the hydration means: accounting, the simple map-filter when nothing repeats, last-write-wins
 * when something does, and the feed read against a table that is being written.
 */
module FeedTheorems {
  import opened Prelude
  import opened Projection
  import opened ProjectionRepository
  import opened FeedModel
  import opened FeedOutcome
  import opened MockProvider
  import opened Workers

  function Unparsables(recs: seq<Rec>): nat {
    if recs == [] then 0
    else Unparsables(recs[..|recs| - 1]) + if recs[|recs| - 1].videoId.Unparsable? then 1 else 0
  }

  /**
   * Exact accounting. Items and missing entries together are the recommendations, with every
   * unparsable id counted once more, since both loops report it.
   */
  lemma {:induction false} Accounting(t: Table, recs: seq<Rec>)
    ensures |Items(t, recs)| + |Missing(t, recs)| == |recs| + Unparsables(recs)
    ensures |Hydrated(t, recs)| + |Unhydrated(t, recs)| == |recs| && |Invalid(recs)| == Unparsables(recs)
  {
    if recs != [] {
      Accounting(t, recs[..|recs| - 1]);
    }
  }

  lemma {:induction false} UnparsablesIsZero(recs: seq<Rec>)
    ensures Unparsables(recs) == 0 <==> forall i :: 0 <= i < |recs| ==> !recs[i].videoId.Unparsable?
  {
    if recs != [] {
      var n := |recs| - 1;
      UnparsablesIsZero(recs[..n]);
      assert forall i :: 0 <= i < n ==> recs[..n][i] == recs[i];
      assert recs[n] == recs[|recs| - 1];
    }
  }

  /** Every recommendation is reported exactly once if and only if every id parses. */
  lemma ReportedOnceIffAllParse(t: Table, recs: seq<Rec>)
    ensures |Items(t, recs)| + |Missing(t, recs)| == |recs|
            <==> forall i :: 0 <= i < |recs| ==> !recs[i].videoId.Unparsable?
  {
    Accounting(t, recs);
    UnparsablesIsZero(recs);
  }

  /** One recommendation with an unparsable id is missing twice. */
  lemma OneUnparsableIsReportedTwice(t: Table)
    ensures var id := Unparsable("x");
            var recs: seq<Rec> := [Recommendation(id, "", 0.0, map[])];
            && Items(t, recs) == []
            && Missing(t, recs)
               == [MissingProjection(id, "invalid video id"), MissingProjection(id, "projection missing")]
  {
    var recs: seq<Rec> := [Recommendation(Unparsable("x"), "", 0.0, map[])];
    assert recs[..|recs| - 1] == [];
    assert Hydrated(t, recs) == [];
    assert Invalid(recs) == [MissingProjection(recs[0].videoId, INVALID_ID)];
    assert Unhydrated(t, recs) == [MissingProjection(recs[0].videoId, NO_PROJECTION)];
  }

  lemma {:induction false} UnhydratedIsEmpty(t: Table, recs: seq<Rec>)
    ensures Unhydrated(t, recs) == [] <==> forall i :: 0 <= i < |recs| ==> Hydrates(t, recs[i])
    ensures Unhydrated(t, recs) == [] ==> Invalid(recs) == []
    ensures Unhydrated(t, recs) == [] ==>
      |Hydrated(t, recs)| == |recs| && forall k :: 0 <= k < |recs| ==> Hydrated(t, recs)[k] == k
  {
    if recs != [] {
      var n := |recs| - 1;
      UnhydratedIsEmpty(t, recs[..n]);
      assert forall i :: 0 <= i < n ==> recs[..n][i] == recs[i];
      assert Hydrates(t, recs[n]) <==> Hydrates(t, recs[|recs| - 1]);
    }
  }

  /** The response is partial exactly when some recommendation is not the canonical id of a row. */
  lemma PartialIffSomethingMissing(t: Table, recs: seq<Rec>)
    ensures Missing(t, recs) != [] <==> exists i :: 0 <= i < |recs| && !Hydrates(t, recs[i])
    ensures Serve(t, recs, None, true).loggedMissing == IdsOf(Missing(t, recs))
  {
    UnhydratedIsEmpty(t, recs);
    if Missing(t, recs) == [] {
      assert Unhydrated(t, recs) == [];
    }
    if recs == [] {
      assert Missing(t, recs) == [];
    }
  }

  predicate Distinct(recs: seq<Rec>) {
    forall i, j :: 0 <= i < j < |recs| ==> recs[i].videoId != recs[j].videoId
  }

  /** A recommendation hydrated on its own. */
  function Alone(t: Table, r: Rec): PlainItem
    requires Hydrates(t, r)
  {
    Base(r.videoId.uuid, t[r.videoId.uuid]).(
      reasonCode := r.reason, score := r.score,
      reasonLabel := if REASON_LABEL in r.metadata then r.metadata[REASON_LABEL] else "",
      attributes := r.metadata - {REASON_LABEL})
  }

  /** The recommendations that hydrate, each hydrated on its own, in order. */
  function MapFilter(t: Table, recs: seq<Rec>): seq<PlainItem> {
    if recs == [] then []
    else
      var front, last := MapFilter(t, recs[..|recs| - 1]), recs[|recs| - 1];
      if Hydrates(t, last) then front + [Alone(t, last)] else front
  }

  lemma {:induction false} UntouchedWithoutOccurrence(recs: seq<Rec>, id: IdText)
    requires forall i :: 0 <= i < |recs| ==> recs[i].videoId != id
    ensures LabelAfter(recs, id) == "" && AttrsAfter(recs, id) == map[]
  {
    if recs != [] {
      UntouchedWithoutOccurrence(recs[..|recs| - 1], id);
    }
  }

  lemma {:induction false} OnlyOccurrence(recs: seq<Rec>, i: nat)
    requires Distinct(recs) && i < |recs|
    ensures var id, own := recs[i].videoId, recs[i].metadata;
            && LabelAfter(recs[..i + 1], id) == (if REASON_LABEL in own then own[REASON_LABEL] else "")
            && AttrsAfter(recs, id) == own - {REASON_LABEL}
  {
    var n := |recs| - 1;
    var upto := recs[..i + 1];
    assert upto[..|upto| - 1] == recs[..i] && upto[i] == recs[i];
    UntouchedWithoutOccurrence(recs[..i], recs[i].videoId);
    if i == n {
      assert recs[..n] == recs[..i];
    } else {
      OnlyOccurrence(recs[..n], i);
      assert recs[n].videoId != recs[i].videoId;
    }
  }

  lemma {:induction false} MapFilterAt(t: Table, recs: seq<Rec>)
    ensures |MapFilter(t, recs)| == |Hydrated(t, recs)|
    ensures forall k :: 0 <= k < |Hydrated(t, recs)| ==>
              Hydrates(t, recs[Hydrated(t, recs)[k]]) && MapFilter(t, recs)[k] == Alone(t, recs[Hydrated(t, recs)[k]])
  {
    if recs != [] {
      MapFilterAt(t, recs[..|recs| - 1]);
    }
  }

  /** When no id repeats, the shared cards and the two loops compute a plain map-filter. */
  lemma HydrationIsMapFilter(t: Table, recs: seq<Rec>)
    requires Distinct(recs)
    ensures Items(t, recs) == MapFilter(t, recs)
  {
    MapFilterAt(t, recs);
    var h := Hydrated(t, recs);
    forall k | 0 <= k < |h| ensures Items(t, recs)[k] == MapFilter(t, recs)[k] {
      OnlyOccurrence(recs, h[k]);
    }
  }

  /** Occurrence `i` writes attribute `key` of `id`. */
  predicate WritesAttr(recs: seq<Rec>, id: IdText, key: string, i: int) {
    0 <= i < |recs| && recs[i].videoId == id && key != REASON_LABEL && key in recs[i].metadata
  }

  predicate LatestAttr(recs: seq<Rec>, id: IdText, key: string, i: int) {
    WritesAttr(recs, id, key, i) && forall j :: i < j < |recs| ==> !WritesAttr(recs, id, key, j)
  }

  /** Some occurrence of `id` writes attribute `key`. */
  ghost predicate HasAttr(recs: seq<Rec>, id: IdText, key: string) {
    exists i :: WritesAttr(recs, id, key, i)
  }

  /** Where there are writes there is a latest. */
  lemma {:induction false} SomeWriteIsLatest(recs: seq<Rec>, id: IdText, key: string, i: int)
    requires WritesAttr(recs, id, key, i)
    ensures exists j :: LatestAttr(recs, id, key, j)
    decreases |recs| - i
  {
    if !LatestAttr(recs, id, key, i) {
      var j :| i < j < |recs| && WritesAttr(recs, id, key, j);
      SomeWriteIsLatest(recs, id, key, j);
    }
  }

  /** The attributes shared by all copies of a card: key by key, the last write of any occurrence. */
  lemma {:induction false} AttributesAreLastWrites(recs: seq<Rec>, id: IdText, key: string)
    ensures key in AttrsAfter(recs, id) <==> exists i :: LatestAttr(recs, id, key, i)
    ensures forall i :: LatestAttr(recs, id, key, i) ==>
              key in AttrsAfter(recs, id) && AttrsAfter(recs, id)[key] == recs[i].metadata[key]
  {
    if recs != [] {
      var n := |recs| - 1;
      AttributesAreLastWrites(recs[..n], id, key);
      assert forall j :: 0 <= j < n ==> (WritesAttr(recs, id, key, j) <==> WritesAttr(recs[..n], id, key, j));
      if WritesAttr(recs, id, key, n) {
        assert LatestAttr(recs, id, key, n);
      } else {
        assert forall i :: LatestAttr(recs, id, key, i) <==> LatestAttr(recs[..n], id, key, i);
      }
    }
  }

  predicate LatestLabel(recs: seq<Rec>, id: IdText, i: int) {
    0 <= i < |recs| && GivesLabel(recs[i], id) && forall j :: i < j < |recs| ==> !GivesLabel(recs[j], id)
  }

  /** The label of a copy: the latest non-empty label among the occurrences up to its own. */
  lemma {:induction false} LabelIsLatest(recs: seq<Rec>, id: IdText)
    ensures forall i :: LatestLabel(recs, id, i) ==> LabelAfter(recs, id) == recs[i].metadata[REASON_LABEL]
    ensures LabelAfter(recs, id) != "" <==> exists i :: LatestLabel(recs, id, i)
  {
    if recs != [] {
      var n := |recs| - 1;
      LabelIsLatest(recs[..n], id);
      assert forall j :: 0 <= j < n ==> recs[..n][j] == recs[j];
      if GivesLabel(recs[n], id) {
        assert LatestLabel(recs, id, n);
      } else {
        assert forall i :: LatestLabel(recs, id, i) <==> LatestLabel(recs[..n], id, i);
      }
    }
  }

  /**
   * Duplicates. Every copy has the reason and the score of its own occurrence, and as its label the
   * latest non-empty one among the occurrences of its video up to its own. All copies of one video end
   * with the same attributes: key by key the last write of any occurrence, before or after the copy.
   */
  lemma DuplicatesShareAttributes(t: Table, recs: seq<Rec>, k: nat)
    requires k < |Items(t, recs)|
    ensures var i, item := Hydrated(t, recs)[k], Items(t, recs)[k];
            var upto := recs[..i + 1];
            && item.videoId == recs[i].videoId && item.reasonCode == recs[i].reason && item.score == recs[i].score
            && (item.reasonLabel != "" <==> exists j :: LatestLabel(upto, item.videoId, j))
            && (forall j :: LatestLabel(upto, item.videoId, j) ==>
                  item.reasonLabel == recs[j].metadata[REASON_LABEL])
            && (forall key :: key in item.attributes <==> HasAttr(recs, item.videoId, key))
            && (forall key, j :: LatestAttr(recs, item.videoId, key, j) ==>
                  key in item.attributes && item.attributes[key] == recs[j].metadata[key])
    ensures forall l :: 0 <= l < |Items(t, recs)| && Items(t, recs)[l].videoId == Items(t, recs)[k].videoId ==>
              Items(t, recs)[l].attributes == Items(t, recs)[k].attributes
  {
    var i := Hydrated(t, recs)[k];
    LabelIsLatest(recs[..i + 1], recs[i].videoId);
    forall key
      ensures key in AttrsAfter(recs, recs[i].videoId) <==> HasAttr(recs, recs[i].videoId, key)
      ensures forall j :: LatestAttr(recs, recs[i].videoId, key, j) ==>
                key in AttrsAfter(recs, recs[i].videoId)
                && AttrsAfter(recs, recs[i].videoId)[key] == recs[j].metadata[key]
    {
      AttributesAreLastWrites(recs, recs[i].videoId, key);
      if j :| WritesAttr(recs, recs[i].videoId, key, j) {
        SomeWriteIsLatest(recs, recs[i].videoId, key, j);
      }
    }
  }

  /** Distinct picks that are all stored hydrate completely. */
  lemma AllHydrateAlone(t: Table, vals: seq<Rec>, picked: seq<Uuid>)
    requires Recommends(vals, picked)
    requires forall i :: 0 <= i < |picked| ==> picked[i] in t
    requires forall i, j :: 0 <= i < j < |picked| ==> picked[i] != picked[j]
    ensures Missing(t, vals) == [] && |Items(t, vals)| == |vals|
    ensures forall k :: 0 <= k < |vals| ==> Items(t, vals)[k] == Alone(t, vals[k])
    ensures forall k :: 0 <= k < |vals| ==> vals[k].metadata - {REASON_LABEL} == map["source" := SOURCE]
  {
    assert Distinct(vals);
    UnhydratedIsEmpty(t, vals);
    HydrationIsMapFilter(t, vals);
    MapFilterAt(t, vals);
    assert |REASON_LABEL| != |"source"|;
  }

  /** The limit of a served call survives the provider's default and the narrowing to 32 bits. */
  lemma ClampedLimitIsPicked(limit: int)
    ensures ToInt32(PickLimit(ClampLimit(limit))) == ClampLimit(limit) > 0
  {
  }

  /** Ids picked from the ready rows are stored, now and after whatever the workers do. */
  lemma PickedStay(s: State, actions: seq<Action>, limit: nat, picked: seq<Uuid>)
    requires RandomPick(s.table, limit, picked)
    ensures forall k :: 0 <= k < |picked| ==> picked[k] in Exec(s, actions).table
  {
    ExecKeepsKeys(s, actions);
    forall k | 0 <= k < |picked| ensures picked[k] in Exec(s, actions).table {
      assert picked[k] in ReadyIds(s.table);
    }
  }

  /**
   * The mock feed is never partial, whatever the workers do. Between the moment the ready ids are
   * picked and the moment they are hydrated, any number of handlers may load, write and be abandoned;
   * still every picked id is hydrated, in order and once, from the row as it is then.
   */
  lemma MockFeedIsNeverPartial(s: State, actions: seq<Action>, limit: int, picked: seq<Uuid>, vals: seq<Rec>)
    requires RandomPick(s.table, ToInt32(PickLimit(ClampLimit(limit))), picked) && Recommends(vals, picked)
    ensures var t := Exec(s, actions).table;
            var served := Serve(t, vals, None, true);
            && served.error.None? && served.missing == []
            && |served.items| == |picked| == Min(ClampLimit(limit), |ReadyIds(s.table)|)
            && (forall k :: 0 <= k < |picked| ==>
                  picked[k] in t && served.items[k].videoId == Canonical(picked[k])
                  && served.items[k] == Alone(t, vals[k]) && served.items[k].attributes == map["source" := SOURCE])
            && (forall k, l :: 0 <= k < l < |picked| ==> picked[k] != picked[l])
  {
    ClampedLimitIsPicked(limit);
    PickedStay(s, actions, ClampLimit(limit), picked);
    AllHydrateAlone(Exec(s, actions).table, vals, picked);
  }
}
