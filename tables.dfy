/** The two tables as sequences of rows: lookups, the `WHERE` filters the store
    uses, the integrity the database keeps (unique ids, the `steps.tour_id`
    foreign key) and the facts about them that the operations' proofs share. */
module Tables {
  import opened Records

  predicate HasTour(tours: seq<Tour>, id: Id)
  {
    exists t :: t in tours && t.id == id
  }

  /** `SELECT * FROM tours WHERE id = $1`, first row. */
  function FindTour(tours: seq<Tour>, id: Id): (r: Option<Tour>)
    ensures r.None? <==> !HasTour(tours, id)
    ensures r.Some? ==> r.value in tours && r.value.id == id
  {
    if tours == [] then None
    else if tours[0].id == id then Some(tours[0])
    else
      assert forall t :: t in tours ==> t == tours[0] || t in tours[1..];
      FindTour(tours[1..], id)
  }

  /** `SELECT * FROM steps WHERE id = $1 AND tour_id = $2`, first row. */
  function FindStep(steps: seq<Step>, tourId: Id, stepId: Id): (r: Option<Step>)
    ensures r.None? <==> forall s :: s in steps ==> !(s.id == stepId && s.tourId == tourId)
    ensures r.Some? ==> r.value in steps && r.value.id == stepId && r.value.tourId == tourId
  {
    if steps == [] then None
    else if steps[0].id == stepId && steps[0].tourId == tourId then Some(steps[0])
    else
      assert forall s :: s in steps ==> s == steps[0] || s in steps[1..];
      FindStep(steps[1..], tourId, stepId)
  }

  predicate UniqueTourIds(tours: seq<Tour>)
  {
    forall i, j :: 0 <= i < j < |tours| ==> tours[i].id != tours[j].id
  }

  predicate UniqueStepIds(steps: seq<Step>)
  {
    forall i, j :: 0 <= i < j < |steps| ==> steps[i].id != steps[j].id
  }

  /** What the database guarantees of the two tables at all times. */
  predicate TablesValid(tours: seq<Tour>, steps: seq<Step>)
  {
    && UniqueTourIds(tours)
    && UniqueStepIds(steps)
    && (forall s :: s in steps ==> HasTour(tours, s.tourId))
  }

  /** The steps of one tour, in table order (`WHERE tour_id = $1`). */
  function StepsOf(steps: seq<Step>, tourId: Id): (r: seq<Step>)
    ensures |r| <= |steps|
    ensures forall s :: s in r <==> s in steps && s.tourId == tourId
    decreases |steps|
  {
    if steps == [] then []
    else
      var init, last := steps[..|steps| - 1], steps[|steps| - 1];
      assert steps == init + [last];
      StepsOf(init, tourId) + (if last.tourId == tourId then [last] else [])
  }

  lemma {:induction false} StepsOfUnique(steps: seq<Step>, tourId: Id)
    requires UniqueStepIds(steps)
    ensures UniqueStepIds(StepsOf(steps, tourId))
  {
    if steps != [] {
      var init, last := steps[..|steps| - 1], steps[|steps| - 1];
      StepsOfUnique(init, tourId);
      forall x | x in StepsOf(init, tourId)
        ensures x.id != last.id
      {
        var m :| 0 <= m < |init| && init[m] == x;
        assert steps[m] == x;
      }
    }
  }

  lemma {:induction false} StepsOfAppend(a: seq<Step>, b: seq<Step>, tourId: Id)
    ensures StepsOf(a + b, tourId) == StepsOf(a, tourId) + StepsOf(b, tourId)
    decreases |b|
  {
    if b == [] {
      assert a + b == a;
    } else {
      var init, last := b[..|b| - 1], b[|b| - 1];
      var front := a + init;
      assert a + b == front + [last] && b == init + [last];
      StepsOfSnoc(front, last, tourId);
      StepsOfSnoc(init, last, tourId);
      StepsOfAppend(a, init, tourId);
      var sa, si, tail := StepsOf(a, tourId), StepsOf(init, tourId), if last.tourId == tourId then [last] else [];
      assert (sa + si) + tail == sa + (si + tail);
    }
  }

  /** One more row adds itself to its own tour's steps and nothing to any other. */
  lemma StepsOfSnoc(init: seq<Step>, last: Step, tourId: Id)
    ensures StepsOf(init + [last], tourId) == StepsOf(init, tourId) + (if last.tourId == tourId then [last] else [])
  {
    var steps := init + [last];
    assert steps[..|steps| - 1] == init && steps[|steps| - 1] == last;
  }

  /** The steps of a tour that every row belongs to are the whole table. */
  lemma {:induction false} StepsOfAll(steps: seq<Step>, tourId: Id)
    requires forall k :: 0 <= k < |steps| ==> steps[k].tourId == tourId
    ensures StepsOf(steps, tourId) == steps
  {
    if steps != [] {
      var init := steps[..|steps| - 1];
      StepsOfAll(init, tourId);
      assert steps == init + [steps[|steps| - 1]];
    }
  }

  /** A tour no row belongs to has no steps. */
  lemma StepsOfNone(steps: seq<Step>, tourId: Id)
    requires forall s :: s in steps ==> s.tourId != tourId
    ensures StepsOf(steps, tourId) == []
  {
  }

  /** A table rewritten row by row, as an `UPDATE ... SET` over it. */
  function MapSteps(steps: seq<Step>, f: Step -> Step): (r: seq<Step>)
    ensures |r| == |steps|
    ensures forall k :: 0 <= k < |steps| ==> r[k] == f(steps[k])
  {
    seq(|steps|, k requires 0 <= k < |steps| => f(steps[k]))
  }

  /** Rewriting rows without moving them between tours commutes with selecting a tour's steps. */
  lemma {:induction false} StepsOfMap(steps: seq<Step>, f: Step -> Step, tourId: Id)
    requires forall s :: f(s).tourId == s.tourId
    ensures StepsOf(MapSteps(steps, f), tourId) == MapSteps(StepsOf(steps, tourId), f)
    decreases |steps|
  {
    if steps != [] {
      var init, last := steps[..|steps| - 1], steps[|steps| - 1];
      var mapped, front := MapSteps(steps, f), MapSteps(init, f);
      assert steps == init + [last];
      assert mapped == front + [f(last)];
      StepsOfSnoc(front, f(last), tourId);
      StepsOfSnoc(init, last, tourId);
      StepsOfMap(init, f, tourId);
      var tail := if last.tourId == tourId then [last] else [];
      MapStepsAppend(StepsOf(init, tourId), tail, f);
    }
  }

  lemma MapStepsAppend(a: seq<Step>, b: seq<Step>, f: Step -> Step)
    ensures MapSteps(a + b, f) == MapSteps(a, f) + MapSteps(b, f)
  {
  }

  /** `UPDATE tours SET ... WHERE id = t.id`, with `t` the row's new value. */
  function ReplaceTour(tours: seq<Tour>, t: Tour): (r: seq<Tour>)
    ensures |r| == |tours|
    ensures forall k :: 0 <= k < |tours| ==> r[k] == if tours[k].id == t.id then t else tours[k]
  {
    seq(|tours|, k requires 0 <= k < |tours| => if tours[k].id == t.id then t else tours[k])
  }

  /** Rewriting an existing tour under its own id keeps the tables consistent and makes the new row visible. */
  lemma ReplaceTourValid(tours: seq<Tour>, steps: seq<Step>, t: Tour)
    requires TablesValid(tours, steps)
    requires HasTour(tours, t.id)
    ensures TablesValid(ReplaceTour(tours, t), steps)
    ensures t in ReplaceTour(tours, t)
    ensures forall u :: u in ReplaceTour(tours, t) && u.id != t.id ==> u in tours
  {
    var r := ReplaceTour(tours, t);
    var before :| before in tours && before.id == t.id;
    var k :| 0 <= k < |tours| && tours[k] == before;
    assert r[k] == t;
    forall s | s in steps
      ensures HasTour(r, s.tourId)
    {
      var u :| u in tours && u.id == s.tourId;
      var m :| 0 <= m < |tours| && tours[m] == u;
      assert r[m].id == u.id;
    }
  }

  /** `UPDATE steps SET ... WHERE id = s.id AND tour_id = s.tourId`, with `s` the row's new value. */
  function ReplaceStep(steps: seq<Step>, s: Step): (r: seq<Step>)
    ensures |r| == |steps|
    ensures forall k :: 0 <= k < |steps| ==>
      r[k] == if steps[k].id == s.id && steps[k].tourId == s.tourId then s else steps[k]
  {
    MapSteps(steps, (x: Step) => if x.id == s.id && x.tourId == s.tourId then s else x)
  }

  /** Rewriting a step in place keeps the tables consistent. */
  lemma ReplaceStepValid(tours: seq<Tour>, steps: seq<Step>, s: Step)
    requires TablesValid(tours, steps)
    requires HasTour(tours, s.tourId)
    ensures TablesValid(tours, ReplaceStep(steps, s))
  {
    var r := ReplaceStep(steps, s);
    forall x | x in r
      ensures HasTour(tours, x.tourId)
    {
      var k :| 0 <= k < |r| && r[k] == x;
      assert steps[k] in steps;
    }
  }

  /** `DELETE FROM steps WHERE id = $1 AND tour_id = $2`. */
  function WithoutStep(steps: seq<Step>, tourId: Id, stepId: Id): (r: seq<Step>)
    ensures |r| <= |steps|
    ensures forall s :: s in r <==> s in steps && !(s.id == stepId && s.tourId == tourId)
    decreases |steps|
  {
    if steps == [] then []
    else
      var init, last := steps[..|steps| - 1], steps[|steps| - 1];
      assert steps == init + [last];
      WithoutStep(init, tourId, stepId)
        + (if last.id == stepId && last.tourId == tourId then [] else [last])
  }

  lemma {:induction false} WithoutStepUnique(steps: seq<Step>, tourId: Id, stepId: Id)
    requires UniqueStepIds(steps)
    ensures UniqueStepIds(WithoutStep(steps, tourId, stepId))
  {
    if steps != [] {
      var init, last := steps[..|steps| - 1], steps[|steps| - 1];
      WithoutStepUnique(init, tourId, stepId);
      forall x | x in WithoutStep(init, tourId, stepId)
        ensures x.id != last.id
      {
        var m :| 0 <= m < |init| && init[m] == x;
        assert steps[m] == x;
      }
    }
  }

  /** Deleting a step of one tour leaves every other tour's step list as it was. */
  lemma {:induction false} WithoutStepElsewhere(steps: seq<Step>, tourId: Id, stepId: Id, other: Id)
    requires other != tourId
    ensures StepsOf(WithoutStep(steps, tourId, stepId), other) == StepsOf(steps, other)
  {
    if steps != [] {
      var init, last := steps[..|steps| - 1], steps[|steps| - 1];
      WithoutStepElsewhere(init, tourId, stepId, other);
      var kept := WithoutStep(steps, tourId, stepId);
      var keptInit := WithoutStep(init, tourId, stepId);
      if last.id == stepId && last.tourId == tourId {
        assert kept == keptInit;
      } else {
        assert kept == keptInit + [last];
        assert kept[..|kept| - 1] == keptInit;
      }
    }
  }

  /** The cascade of `DELETE FROM tours WHERE id = $1` on `steps`. */
  function WithoutStepsOf(steps: seq<Step>, tourId: Id): (r: seq<Step>)
    ensures forall s :: s in r <==> s in steps && s.tourId != tourId
    decreases |steps|
  {
    if steps == [] then []
    else
      var init, last := steps[..|steps| - 1], steps[|steps| - 1];
      assert steps == init + [last];
      WithoutStepsOf(init, tourId) + (if last.tourId == tourId then [] else [last])
  }

  lemma {:induction false} WithoutStepsOfUnique(steps: seq<Step>, tourId: Id)
    requires UniqueStepIds(steps)
    ensures UniqueStepIds(WithoutStepsOf(steps, tourId))
  {
    if steps != [] {
      var init, last := steps[..|steps| - 1], steps[|steps| - 1];
      WithoutStepsOfUnique(init, tourId);
      forall x | x in WithoutStepsOf(init, tourId)
        ensures x.id != last.id
      {
        var m :| 0 <= m < |init| && init[m] == x;
        assert steps[m] == x;
      }
    }
  }

  /** `DELETE FROM tours WHERE id = $1`. */
  function WithoutTour(tours: seq<Tour>, id: Id): (r: seq<Tour>)
    ensures forall t :: t in r <==> t in tours && t.id != id
    decreases |tours|
  {
    if tours == [] then []
    else
      var init, last := tours[..|tours| - 1], tours[|tours| - 1];
      assert tours == init + [last];
      WithoutTour(init, id) + (if last.id == id then [] else [last])
  }

  lemma {:induction false} WithoutTourUnique(tours: seq<Tour>, id: Id)
    requires UniqueTourIds(tours)
    ensures UniqueTourIds(WithoutTour(tours, id))
  {
    if tours != [] {
      var init, last := tours[..|tours| - 1], tours[|tours| - 1];
      WithoutTourUnique(init, id);
      forall x | x in WithoutTour(init, id)
        ensures x.id != last.id
      {
        var m :| 0 <= m < |init| && init[m] == x;
        assert tours[m] == x;
      }
    }
  }

  /** With unique ids every stored tour occurs once. */
  lemma {:induction false} UniqueOnce(tours: seq<Tour>, t: Tour)
    requires UniqueTourIds(tours)
    requires t in tours
    ensures multiset(tours)[t] == 1
  {
    var init, last := tours[..|tours| - 1], tours[|tours| - 1];
    assert tours == init + [last];
    assert UniqueTourIds(init) by {
      forall i, j | 0 <= i < j < |init| ensures init[i].id != init[j].id {
        assert init[i] == tours[i] && init[j] == tours[j];
      }
    }
    if t == last {
      assert t !in init by {
        forall m | 0 <= m < |init| ensures init[m] != t {
          assert tours[m] == init[m];
        }
      }
    } else {
      UniqueOnce(init, t);
    }
  }

  /** Deleting an id no tour has leaves the table as it was. */
  lemma {:induction false} WithoutTourAbsent(tours: seq<Tour>, id: Id)
    requires !HasTour(tours, id)
    ensures WithoutTour(tours, id) == tours
  {
    if tours != [] {
      var init, last := tours[..|tours| - 1], tours[|tours| - 1];
      assert tours == init + [last];
      assert last in tours;
      WithoutTourAbsent(init, id);
    }
  }

  /** The cascade of a tour that owns no step leaves the step table as it was. */
  lemma {:induction false} WithoutStepsOfNone(steps: seq<Step>, tourId: Id)
    requires forall s :: s in steps ==> s.tourId != tourId
    ensures WithoutStepsOf(steps, tourId) == steps
  {
    if steps != [] {
      var init, last := steps[..|steps| - 1], steps[|steps| - 1];
      assert steps == init + [last];
      assert last in steps;
      WithoutStepsOfNone(init, tourId);
    }
  }

  /** The cascade leaves every other tour's step list as it was, in order. */
  lemma {:induction false} WithoutStepsOfElsewhere(steps: seq<Step>, tourId: Id, other: Id)
    requires other != tourId
    ensures StepsOf(WithoutStepsOf(steps, tourId), other) == StepsOf(steps, other)
  {
    if steps != [] {
      var init, last := steps[..|steps| - 1], steps[|steps| - 1];
      assert steps == init + [last];
      WithoutStepsOfElsewhere(init, tourId, other);
      var keptInit := WithoutStepsOf(init, tourId);
      if last.tourId == tourId {
        assert WithoutStepsOf(steps, tourId) == keptInit;
      } else {
        assert WithoutStepsOf(steps, tourId) == keptInit + [last];
        StepsOfSnoc(keptInit, last, other);
      }
      StepsOfSnoc(init, last, other);
    }
  }

  /** Deleting a tour and its steps keeps the foreign key intact and leaves nothing of the tour
      behind; every other tour keeps its steps, and deleting a missing id changes nothing. */
  lemma DeleteTourCascade(tours: seq<Tour>, steps: seq<Step>, id: Id)
    requires TablesValid(tours, steps)
    ensures TablesValid(WithoutTour(tours, id), WithoutStepsOf(steps, id))
    ensures !HasTour(WithoutTour(tours, id), id)
    ensures StepsOf(WithoutStepsOf(steps, id), id) == []
    ensures forall other :: other != id ==> StepsOf(WithoutStepsOf(steps, id), other) == StepsOf(steps, other)
    ensures !HasTour(tours, id) ==> WithoutTour(tours, id) == tours && WithoutStepsOf(steps, id) == steps
  {
    forall other | other != id
      ensures StepsOf(WithoutStepsOf(steps, id), other) == StepsOf(steps, other)
    {
      WithoutStepsOfElsewhere(steps, id, other);
    }
    if !HasTour(tours, id) {
      WithoutTourAbsent(tours, id);
      WithoutStepsOfNone(steps, id);
    }
    WithoutTourUnique(tours, id);
    WithoutStepsOfUnique(steps, id);
    var ts, ss := WithoutTour(tours, id), WithoutStepsOf(steps, id);
    forall s | s in ss
      ensures HasTour(ts, s.tourId)
    {
      var t :| t in tours && t.id == s.tourId;
      assert t in ts;
    }
    StepsOfNone(ss, id);
  }
}
