/** The analysis page's aggregate progress: a map from meal item id to the
    latest status its card reported, and the check, rerun after every
    change, that moves on to the results page once every item of the batch
    is completed.

    The cards run concurrently; all the page sees of them is one
    interleaved sequence of `(mealItemId, status)` reports, applied in
    order to the map. Navigation itself is the single event "fired". */
module Progress {
  import opened Card

  type StatusMap = map<string, Status>

  /** `handleStatusChange`: a functional copy of the map with one key set. */
  function HandleStatusChange(m: StatusMap, mealItemId: string, status: Status): (r: StatusMap)
    ensures mealItemId in r && r[mealItemId] == status
    ensures r.Keys == m.Keys + {mealItemId}
    ensures forall k :: k in m && k != mealItemId ==> r[k] == m[k]
  {
    m[mealItemId := status]
  }

  function CompletedKeys(m: StatusMap): set<string>
  {
    set k | k in m && m[k] == Completed
  }

  /** `Object.values(statusMap).filter(s => s === 'completed').length`. */
  function CompletedCount(m: StatusMap): (n: nat)
    ensures n <= |m|
    ensures n == |m| <==> forall k :: k in m ==> m[k] == Completed
  {
    var done := CompletedKeys(m);
    SubsetCardinality(done, m.Keys);
    if |done| == |m| then
      SubsetOfSameSize(done, m.Keys);
      |done|
    else
      assert (forall k :: k in m ==> m[k] == Completed) ==> done == m.Keys;
      |done|
  }

  /** The effect's condition for navigating, for a batch of `batchSize` items. */
  predicate ShouldNavigate(m: StatusMap, batchSize: nat)
    // navigation needs a non-empty batch and at least as many entries as the
    // batch has items (which items: see NavigateIffAllCompleted)
    ensures ShouldNavigate(m, batchSize) ==> 0 < batchSize <= |m|
  {
    CompletedCount(m) == batchSize && batchSize > 0
  }

  lemma {:induction false} SubsetCardinality(a: set<string>, b: set<string>)
    requires a <= b
    ensures |a| <= |b|
    decreases |a|
  {
    if a != {} {
      var x :| x in a;
      SubsetCardinality(a - {x}, b - {x});
    }
  }

  lemma SubsetOfSameSize(a: set<string>, b: set<string>)
    requires a <= b && |a| == |b|
    ensures a == b
  {
    if a != b {
      var x :| x in b && x !in a;
      SubsetCardinality(a, b - {x});
    }
  }

  /** When every reported item belongs to the batch (item ids are distinct),
      the page navigates exactly when the batch is non-empty and every one of
      its items has reported `completed`. */
  lemma NavigateIffAllCompleted(m: StatusMap, batch: set<string>)
    requires m.Keys <= batch
    ensures ShouldNavigate(m, |batch|) <==>
      |batch| > 0 && forall id :: id in batch ==> id in m && m[id] == Completed
  {
    var done := CompletedKeys(m);
    assert done <= batch;
    if ShouldNavigate(m, |batch|) {
      SubsetOfSameSize(done, batch);
    }
    if |batch| > 0 && forall id :: id in batch ==> id in m && m[id] == Completed {
      assert done == batch;
    }
  }

  /** An item in `error` keeps the page on the progress view. */
  lemma ErrorBlocksNavigation(m: StatusMap, batch: set<string>, failed: string)
    requires m.Keys <= batch
    requires failed in m && m[failed] == Error
    ensures !ShouldNavigate(m, |batch|)
  {
    NavigateIffAllCompleted(m, batch);
  }

  /** One call of `onStatusChange` from the card of `mealItemId`. */
  datatype Report = Report(mealItemId: string, status: Status)

  /** The status map after applying the reports, oldest first, to `{}`. */
  function StatusMapAfter(reports: seq<Report>): StatusMap
  {
    if reports == [] then map[]
    else
      var last := reports[|reports| - 1];
      HandleStatusChange(StatusMapAfter(reports[..|reports| - 1]), last.mealItemId, last.status)
  }

  /** Every item's entry is the status of its latest report. */
  lemma {:induction false} EntryIsLatestReport(reports: seq<Report>, id: string)
    ensures id in StatusMapAfter(reports) <==> exists i :: 0 <= i < |reports| && reports[i].mealItemId == id
    ensures id in StatusMapAfter(reports) ==>
      exists i :: 0 <= i < |reports| && reports[i] == Report(id, StatusMapAfter(reports)[id])
        && forall j :: i < j < |reports| ==> reports[j].mealItemId != id
    decreases |reports|
  {
    if reports != [] {
      var n := |reports| - 1;
      var init := reports[..n];
      EntryIsLatestReport(init, id);
      assert forall i :: 0 <= i < n ==> reports[i] == init[i];
      if reports[n].mealItemId != id && id in StatusMapAfter(reports) {
        var i :| 0 <= i < n && init[i] == Report(id, StatusMapAfter(init)[id])
          && forall j :: i < j < n ==> init[j].mealItemId != id;
        assert reports[i] == Report(id, StatusMapAfter(reports)[id]);
      }
    }
  }

  /** A card reports nothing after its terminal report: it has closed its
      event source (the card's `Valid` keeps every report but the last
      `in_progress`). */
  predicate NoReportAfterTerminal(reports: seq<Report>)
  {
    forall i, j :: 0 <= i < j < |reports| && reports[i].mealItemId == reports[j].mealItemId ==>
      !IsTerminal(reports[i].status)
  }

  /** The navigation condition, re-evaluated after every report, holds at
      most once: if it holds after report `j`, that report is the last one
      there will ever be, because every card has then closed its source. */
  lemma NavigatesAtMostOnce(batch: set<string>, reports: seq<Report>, j: nat)
    requires forall i :: 0 <= i < |reports| ==> reports[i].mealItemId in batch
    requires NoReportAfterTerminal(reports)
    requires j < |reports|
    requires ShouldNavigate(StatusMapAfter(reports[..j + 1]), |batch|)
    ensures j == |reports| - 1
  {
    var prefix := reports[..j + 1];
    var m := StatusMapAfter(prefix);
    assert m.Keys <= batch by {
      forall id | id in m ensures id in batch {
        EntryIsLatestReport(prefix, id);
      }
    }
    NavigateIffAllCompleted(m, batch);
    var last := reports[|reports| - 1];
    assert last.mealItemId in m && m[last.mealItemId] == Completed;
    EntryIsLatestReport(prefix, last.mealItemId);
    // the last report's item had already completed by report j, and a
    // completed card reports nothing more: so that completion is the last report
    var i :| 0 <= i < |prefix| && prefix[i] == Report(last.mealItemId, Completed);
    assert reports[i] == prefix[i];
    assert IsTerminal(reports[i].status);
  }
}
