/** The admin read operations: the tour list with search, activity filter and step
    counts (`getTours`), and one tour with its ordered steps (`getTourById`). */
module Queries {
  import opened Records
  import opened Strings
  import opened Sorting
  import opened Tables
  import opened Ordering

  /** A row of the tour list: the tour and its `steps_count`. */
  datatype TourSummary = TourSummary(tour: Tour, stepsCount: nat)

  /** A tour as `getTourById` returns it, with `steps` attached. */
  datatype TourDetail = TourDetail(tour: Tour, steps: seq<Step>)

  /** `if (search)`: an absent or empty search matches every tour; otherwise the name or the
      page path must contain it, ignoring case. */
  predicate MatchesSearch(t: Tour, search: Option<string>)
  {
    search.None? || search.value == ""
    || ContainsIgnoringCase(t.name, search.value) || ContainsIgnoringCase(t.pagePath, search.value)
  }

  /** `filterActive`: "active" and "inactive" filter on `is_active`; anything else does not filter. */
  predicate MatchesActivity(t: Tour, filterActive: Option<string>)
  {
    if filterActive == Some("active") then t.isActive
    else if filterActive == Some("inactive") then !t.isActive
    else true
  }

  predicate Listed(t: Tour, search: Option<string>, filterActive: Option<string>)
  {
    MatchesSearch(t, search) && MatchesActivity(t, filterActive)
  }

  /** The `WHERE` clause of the list query, in table order. */
  function ListedTours(tours: seq<Tour>, search: Option<string>, filterActive: Option<string>): (r: seq<Tour>)
    ensures forall t :: t in r <==> t in tours && Listed(t, search, filterActive)
    ensures |r| <= |tours|
    decreases |tours|
  {
    if tours == [] then []
    else
      var init, last := tours[..|tours| - 1], tours[|tours| - 1];
      assert tours == init + [last];
      ListedTours(init, search, filterActive) + (if Listed(last, search, filterActive) then [last] else [])
  }

  function NewestFirst(t: Tour): int { -t.createdAt }

  function ToursOf(r: seq<TourSummary>): (ts: seq<Tour>)
    ensures |ts| == |r| && forall k :: 0 <= k < |r| ==> ts[k] == r[k].tour
  {
    seq(|r|, k requires 0 <= k < |r| => r[k].tour)
  }

  /** `getTours`: the matching tours, newest first, each with the number of its steps. */
  function ListTours(tours: seq<Tour>, steps: seq<Step>, search: Option<string>, filterActive: Option<string>)
    : (r: seq<TourSummary>)
    ensures forall t :: t in ToursOf(r) <==> t in tours && Listed(t, search, filterActive)
    ensures multiset(ToursOf(r)) == multiset(ListedTours(tours, search, filterActive))
    ensures forall i, j :: 0 <= i < j < |r| ==> r[i].tour.createdAt >= r[j].tour.createdAt
    ensures forall k :: 0 <= k < |r| ==> r[k].stepsCount == |StepsOf(steps, r[k].tour.id)|
  {
    var listed := ListedTours(tours, search, filterActive);
    var sorted := SortBy(listed, NewestFirst);
    SameMembers(sorted, listed);
    assert forall i, j :: 0 <= i < j < |sorted| ==> NewestFirst(sorted[i]) <= NewestFirst(sorted[j]);
    Summaries(sorted, steps)
  }

  /** `steps_count` attached to each tour, in the same order. */
  function Summaries(ts: seq<Tour>, steps: seq<Step>): (r: seq<TourSummary>)
    ensures ToursOf(r) == ts
    ensures forall k :: 0 <= k < |r| ==> r[k].stepsCount == |StepsOf(steps, r[k].tour.id)|
  {
    var r := seq(|ts|, k requires 0 <= k < |ts| => TourSummary(ts[k], |StepsOf(steps, ts[k].id)|));
    assert ToursOf(r) == ts;
    r
  }

  /** Sequences with the same multiset have the same members. */
  lemma SameMembers(a: seq<Tour>, b: seq<Tour>)
    requires multiset(a) == multiset(b)
    ensures forall t :: t in a <==> t in b
  {
    forall t
      ensures t in a <==> t in b
    {
      assert t in a <==> multiset(a)[t] > 0;
      assert t in b <==> multiset(b)[t] > 0;
    }
  }

  /** Each listed tour is listed once when ids are unique (`GROUP BY t.id`). */
  lemma ListToursOnce(tours: seq<Tour>, steps: seq<Step>, search: Option<string>, filterActive: Option<string>, t: Tour)
    requires UniqueTourIds(tours)
    requires t in tours && Listed(t, search, filterActive)
    ensures multiset(ToursOf(ListTours(tours, steps, search, filterActive)))[t] == 1
  {
    ListedOnce(tours, search, filterActive, t);
  }

  lemma {:induction false} ListedOnce(tours: seq<Tour>, search: Option<string>, filterActive: Option<string>, t: Tour)
    requires UniqueTourIds(tours)
    requires t in tours && Listed(t, search, filterActive)
    ensures multiset(ListedTours(tours, search, filterActive))[t] == 1
  {
    var init, last := tours[..|tours| - 1], tours[|tours| - 1];
    assert tours == init + [last];
    assert UniqueTourIds(init) by {
      forall i, j | 0 <= i < j < |init| ensures init[i].id != init[j].id {
        assert init[i] == tours[i] && init[j] == tours[j];
      }
    }
    if t == last {
      assert t !in init by {
        forall m | 0 <= m < |init| ensures init[m] != t {
          assert tours[m] == init[m];
        }
      }
      assert t !in ListedTours(init, search, filterActive);
    } else {
      assert t in init;
      ListedOnce(init, search, filterActive, t);
    }
  }

  /** Without search or filter every tour is listed. */
  lemma ListAll(tours: seq<Tour>, steps: seq<Step>, t: Tour)
    requires t in tours
    ensures t in ToursOf(ListTours(tours, steps, None, None))
  {
  }

  /** `getTourById`: the tour and its steps by ascending `order_index`, or nothing. */
  function TourById(tours: seq<Tour>, steps: seq<Step>, id: Id): (r: Option<TourDetail>)
    ensures r.None? <==> !HasTour(tours, id)
    ensures r.Some? ==> r.value.tour in tours && r.value.tour.id == id
    ensures r.Some? ==> multiset(r.value.steps) == multiset(StepsOf(steps, id))
    ensures r.Some? ==> forall s :: s in r.value.steps <==> s in steps && s.tourId == id
    ensures r.Some? ==> forall i, j :: 0 <= i < j < |r.value.steps| ==>
      r.value.steps[i].orderIndex <= r.value.steps[j].orderIndex
  {
    match FindTour(tours, id)
    case None => None
    case Some(t) => Some(TourDetail(t, TourSteps(steps, id)))
  }

  /** On a densely numbered tour the listed steps carry their own position: step k has `order_index` k. */
  lemma TourByIdPositions(tours: seq<Tour>, steps: seq<Step>, id: Id)
    requires HasTour(tours, id)
    requires DenseFor(steps, id)
    ensures forall k :: 0 <= k < |TourById(tours, steps, id).value.steps| ==>
      TourById(tours, steps, id).value.steps[k].orderIndex == k
  {
    var ss := TourById(tours, steps, id).value.steps;
    DensePermutation(StepsOf(steps, id), ss);
    SortedDenseIsPosition(ss);
  }

  /** A dense list sorted by position has position k at index k. */
  lemma SortedDenseIsPosition(ss: seq<Step>)
    requires Dense(ss)
    requires forall i, j :: 0 <= i < j < |ss| ==> ss[i].orderIndex <= ss[j].orderIndex
    ensures forall k :: 0 <= k < |ss| ==> ss[k].orderIndex == k
  {
    forall k | 0 <= k < |ss|
      ensures ss[k].orderIndex == k
    {
      AtLeastIndex(ss, k);
      TopBound(ss, k);
    }
  }

  lemma {:induction false} AtLeastIndex(ss: seq<Step>, k: int)
    requires Dense(ss)
    requires forall i, j :: 0 <= i < j < |ss| ==> ss[i].orderIndex <= ss[j].orderIndex
    requires 0 <= k < |ss|
    ensures ss[k].orderIndex >= k
    decreases k
  {
    if k > 0 {
      AtLeastIndex(ss, k - 1);
      assert ss[k - 1].orderIndex != ss[k].orderIndex;
    }
  }

  lemma {:induction false} TopBound(ss: seq<Step>, k: int)
    requires Dense(ss)
    requires forall i, j :: 0 <= i < j < |ss| ==> ss[i].orderIndex <= ss[j].orderIndex
    requires 0 <= k < |ss|
    ensures ss[k].orderIndex <= k
    decreases |ss| - k
  {
    if k < |ss| - 1 {
      TopBound(ss, k + 1);
      assert ss[k].orderIndex != ss[k + 1].orderIndex;
    }
  }
}
