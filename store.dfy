/** The tour store: the `tours` and `steps` tables held in memory, and the mutating
    operations of `tourlyStore`, each one a single atomic transaction on them. */
module Store {
  import opened Records
  import opened Strings
  import opened Tables
  import opened Ordering
  import opened Columns
  import opened Rows

  class TourlyStore {
    var tours: seq<Tour>
    var steps: seq<Step>
    /** The identity the database will give the next inserted tour, and step. */
    var nextTourId: Id
    var nextStepId: Id

    /** The two tables are consistent and every stored id was issued before. */
    predicate Valid()
      reads this
    {
      && TablesValid(tours, steps)
      && (forall t :: t in tours ==> t.id < nextTourId)
      && (forall s :: s in steps ==> s.id < nextStepId)
    }

    constructor()
      ensures Valid()
      ensures tours == [] && steps == []
    {
      tours, steps := [], [];
      nextTourId, nextStepId := 0, 0;
    }

    /** `createTour`: inserts the draft with its defaults under a fresh id. */
    method CreateTour(draft: TourDraft, now: int) returns (r: Result<Tour>)
      requires Valid()
      modifies this
      ensures Valid()
      ensures r == CreatedTour(draft, old(nextTourId), now)
      ensures r.Ok? ==> tours == old(tours) + [r.value] && nextTourId == old(nextTourId) + 1
      ensures r.Err? ==> tours == old(tours) && nextTourId == old(nextTourId)
      ensures steps == old(steps) && nextStepId == old(nextStepId)
    {
      r := CreatedTour(draft, nextTourId, now);
      if r.Ok? {
        AddTourValid(r.value);
        tours := tours + [r.value];
        nextTourId := nextTourId + 1;
      }
    }

    /** Appending a tour with a never-issued id keeps the tables consistent. */
    lemma AddTourValid(t: Tour)
      requires Valid()
      requires t.id == nextTourId
      ensures TablesValid(tours + [t], steps)
    {
      var ts := tours + [t];
      forall i, j | 0 <= i < j < |ts|
        ensures ts[i].id != ts[j].id
      {
        if j == |tours| {
          assert ts[i] in tours;
        } else {
          assert ts[i] == tours[i] && ts[j] == tours[j];
        }
      }
      forall s | s in steps
        ensures HasTour(ts, s.tourId)
      {
        var u :| u in tours && u.id == s.tourId;
        assert u in ts;
      }
    }

    /** `updateTour`: writes the allow-listed keys of `data` to tour `id`. No recognised key is
        an error; a value the column cannot hold is refused; a missing tour yields no row. */
    method UpdateTour(id: Id, data: seq<Entry>, now: int) returns (r: Result<Option<Tour>>)
      requires Valid()
      requires DistinctKeys(data)
      modifies this
      ensures Valid()
      ensures var fields := Recognized(data, TourKeys);
        && (fields == [] ==> r == Err(NoFieldsToUpdate) && tours == old(tours))
        && (fields != [] && !AllFitTour(fields) ==> r == Err(Rejected) && tours == old(tours))
        && (fields != [] && AllFitTour(fields) && !HasTour(old(tours), id) ==> r == Ok(None) && tours == old(tours))
        && (fields != [] && AllFitTour(fields) && HasTour(old(tours), id) ==>
              (RecognizedDistinct(data, TourKeys);
               var t := UpdatedTour(FindTour(old(tours), id).value, fields, now);
               r == Ok(Some(t)) && tours == ReplaceTour(old(tours), t)))
      ensures steps == old(steps) && nextTourId == old(nextTourId) && nextStepId == old(nextStepId)
    {
      var fields := CollectFields(data, TourKeys);
      if fields == [] {
        return Err(NoFieldsToUpdate);
      }
      if !AllFitTour(fields) {
        return Err(Rejected);
      }
      var found := FindTour(tours, id);
      if found.None? {
        return Ok(None);
      }
      RecognizedDistinct(data, TourKeys);
      var t := UpdatedTour(found.value, fields, now);
      ReplaceTourValid(tours, steps, t);
      ReplaceKeepsIssued(t);
      tours := ReplaceTour(tours, t);
      r := Ok(Some(t));
    }

    lemma ReplaceKeepsIssued(t: Tour)
      requires Valid()
      requires HasTour(tours, t.id)
      ensures forall u :: u in ReplaceTour(tours, t) ==> u.id < nextTourId
    {
      var rt := ReplaceTour(tours, t);
      forall u | u in rt
        ensures u.id < nextTourId
      {
        var k :| 0 <= k < |rt| && rt[k] == u;
        assert tours[k] in tours;
      }
    }

    /** `deleteTour`: removes the tour and, by the cascade, its steps. Deleting a missing id
        changes nothing and is not an error. */
    method DeleteTour(id: Id)
      requires Valid()
      modifies this
      ensures Valid()
      ensures tours == WithoutTour(old(tours), id) && steps == WithoutStepsOf(old(steps), id)
      ensures !HasTour(tours, id) && StepsOf(steps, id) == []
      ensures forall other :: other != id ==> StepsOf(steps, other) == StepsOf(old(steps), other)
      ensures !HasTour(old(tours), id) ==> tours == old(tours) && steps == old(steps)
      ensures nextTourId == old(nextTourId) && nextStepId == old(nextStepId)
    {
      DeleteTourCascade(tours, steps, id);
      tours, steps := WithoutTour(tours, id), WithoutStepsOf(steps, id);
    }

    /** `toggleTourActive`: flips `is_active` of tour `id`; a missing tour yields no row. */
    method ToggleTourActive(id: Id, now: int) returns (r: Option<Tour>)
      requires Valid()
      modifies this
      ensures Valid()
      ensures !HasTour(old(tours), id) ==> r.None? && tours == old(tours)
      ensures HasTour(old(tours), id) ==>
        var t := ToggledTour(FindTour(old(tours), id).value, now);
        r == Some(t) && tours == ReplaceTour(old(tours), t)
      ensures steps == old(steps) && nextTourId == old(nextTourId) && nextStepId == old(nextStepId)
    {
      var found := FindTour(tours, id);
      if found.None? {
        return None;
      }
      var t := ToggledTour(found.value, now);
      ReplaceTourValid(tours, steps, t);
      ReplaceKeepsIssued(t);
      tours := ReplaceTour(tours, t);
      r := Some(t);
    }

    /** `duplicateTour`: inserts an inactive copy of tour `id` under the slug `<slug>-copy-<suffix>`,
        `suffix` being the last four digits of the clock reading `clockMs`, then copies its
        steps one by one in `order_index` order. */
    method DuplicateTour(id: Id, clockMs: nat, now: int) returns (r: Result<Tour>)
      requires Valid()
      modifies this
      ensures Valid()
      ensures !HasTour(old(tours), id) ==>
        && r == Err(TourNotFound) && tours == old(tours) && steps == old(steps)
        && nextTourId == old(nextTourId) && nextStepId == old(nextStepId)
      ensures HasTour(old(tours), id) ==>
        var dup := DuplicatedTour(FindTour(old(tours), id).value, old(nextTourId), ClockSuffix(clockMs), now);
        && r == Ok(dup)
        && tours == old(tours) + [dup]
        && steps == old(steps) + Copies(TourSteps(old(steps), id), dup.id, old(nextStepId), now)
        && nextTourId == old(nextTourId) + 1
        && nextStepId == old(nextStepId) + |TourSteps(old(steps), id)|
      ensures HasTour(old(tours), id) && old(DenseFor(steps, id)) ==>
        Dense(StepsOf(steps, r.value.id)) && StepsOf(steps, r.value.id) == Copies(TourSteps(old(steps), id), r.value.id, old(nextStepId), now)
    {
      var found := FindTour(tours, id);
      if found.None? {
        return Err(TourNotFound);
      }
      var dup := DuplicatedTour(found.value, nextTourId, ClockSuffix(clockMs), now);
      AddTourValid(dup);
      tours := tours + [dup];
      nextTourId := nextTourId + 1;
      ghost var steps0, first := steps, nextStepId;
      var source := TourSteps(steps, id);
      CopySteps(source, dup.id, now);
      r := Ok(dup);
      forall s | s in steps0 ensures s.tourId != dup.id {
        assert HasTour(old(tours), s.tourId);
      }
      if DenseFor(steps0, id) {
        CopiesDense(steps0, id, dup.id, first, now);
      }
    }

    /** The copy loop of `duplicateTour`: one `INSERT INTO steps` per source step, in order. */
    method CopySteps(source: seq<Step>, tourId: Id, now: int)
      requires Valid()
      requires HasTour(tours, tourId)
      modifies this
      ensures Valid()
      ensures steps == old(steps) + Copies(source, tourId, old(nextStepId), now)
      ensures nextStepId == old(nextStepId) + |source|
      ensures tours == old(tours) && nextTourId == old(nextTourId)
    {
      ghost var steps0, first := steps, nextStepId;
      for i := 0 to |source|
        invariant steps == steps0 + Copies(source[..i], tourId, first, now)
        invariant nextStepId == first + i
        invariant tours == old(tours) && nextTourId == old(nextTourId)
        invariant Valid()
      {
        var copy := CopyOf(source[i], tourId, nextStepId, now);
        CopiesSnoc(source, i, tourId, first, now);
        AddStepValid(copy);
        steps := steps + [copy];
        nextStepId := nextStepId + 1;
      }
      assert source[..|source|] == source;
    }

    /** Appending a step with a never-issued id to an existing tour keeps the tables consistent. */
    lemma AddStepValid(s: Step)
      requires Valid()
      requires s.id == nextStepId && HasTour(tours, s.tourId)
      ensures TablesValid(tours, steps + [s])
    {
      var ss := steps + [s];
      forall i, j | 0 <= i < j < |ss|
        ensures ss[i].id != ss[j].id
      {
        if j == |steps| {
          assert ss[i] in steps;
        } else {
          assert ss[i] == steps[i] && ss[j] == steps[j];
        }
      }
    }

    /** `createStep`: appends a step to tour `tourId` at `MAX(order_index) + 1`, or 0 for a tour
        without steps. A missing tour violates the foreign key and is refused. */
    method CreateStep(tourId: Id, draft: StepDraft, now: int) returns (r: Result<Step>)
      requires Valid()
      modifies this
      ensures Valid()
      ensures !HasTour(tours, tourId) ==> r == Err(Rejected) && steps == old(steps)
      ensures HasTour(tours, tourId) ==> r == CreatedStep(tourId, draft, old(nextStepId), NextOrder(old(steps), tourId), now)
      ensures r.Ok? ==> steps == old(steps) + [r.value] && nextStepId == old(nextStepId) + 1
      ensures r.Err? ==> steps == old(steps) && nextStepId == old(nextStepId)
      ensures old(DenseFor(steps, tourId)) ==> DenseFor(steps, tourId)
      ensures forall other :: other != tourId ==> StepsOf(steps, other) == StepsOf(old(steps), other)
      ensures tours == old(tours) && nextTourId == old(nextTourId)
    {
      if !HasTour(tours, tourId) {
        return Err(Rejected);
      }
      r := CreatedStep(tourId, draft, nextStepId, NextOrder(steps, tourId), now);
      if r.Ok? {
        AddStepValid(r.value);
        if DenseFor(steps, tourId) {
          AppendKeepsDense(steps, r.value);
        }
        forall other | other != tourId
          ensures StepsOf(steps + [r.value], other) == StepsOf(steps, other)
        {
          AppendElsewhere(steps, r.value, other);
        }
        steps := steps + [r.value];
        nextStepId := nextStepId + 1;
      }
    }

    /** `updateStep`: writes the allow-listed keys of `data` to step `stepId` of tour `tourId`.
        The step never moves; a step of another tour is not touched and yields no row. */
    method UpdateStep(tourId: Id, stepId: Id, data: seq<Entry>, now: int) returns (r: Result<Option<Step>>)
      requires Valid()
      requires DistinctKeys(data)
      modifies this
      ensures Valid()
      ensures var fields := Recognized(data, StepKeys);
        && (fields == [] ==> r == Err(NoFieldsToUpdate) && steps == old(steps))
        && (fields != [] && !AllFitStep(fields) ==> r == Err(Rejected) && steps == old(steps))
        && (fields != [] && AllFitStep(fields) && FindStep(old(steps), tourId, stepId).None? ==>
              r == Ok(None) && steps == old(steps))
        && (fields != [] && AllFitStep(fields) && FindStep(old(steps), tourId, stepId).Some? ==>
              (RecognizedDistinct(data, StepKeys);
               var s := UpdatedStep(FindStep(old(steps), tourId, stepId).value, fields, now);
               r == Ok(Some(s)) && steps == ReplaceStep(old(steps), s)))
      ensures forall t :: old(DenseFor(steps, t)) ==> DenseFor(steps, t)
      ensures tours == old(tours) && nextTourId == old(nextTourId) && nextStepId == old(nextStepId)
    {
      var fields := CollectFields(data, StepKeys);
      if fields == [] {
        return Err(NoFieldsToUpdate);
      }
      if !AllFitStep(fields) {
        return Err(Rejected);
      }
      var found := FindStep(steps, tourId, stepId);
      if found.None? {
        return Ok(None);
      }
      RecognizedDistinct(data, StepKeys);
      var s := UpdatedStep(found.value, fields, now);
      ReplaceStepValid(tours, steps, s);
      ReplaceFoundStep(steps, found.value, s);
      var rs := ReplaceStep(steps, s);
      steps := rs;
      r := Ok(Some(s));
    }

    /** `deleteStep`: deletes step `stepId` of tour `tourId`, then renumbers the tour's remaining
        steps 0..N-1 in their previous order; other tours are untouched. */
    method DeleteStep(tourId: Id, stepId: Id)
      requires Valid()
      modifies this
      ensures Valid()
      ensures steps == AfterStepDeleted(old(steps), tourId, stepId)
      ensures forall s :: s in steps ==> !(s.id == stepId && s.tourId == tourId)
      ensures DenseFor(steps, tourId)
      ensures forall other :: other != tourId ==> StepsOf(steps, other) == StepsOf(old(steps), other)
      ensures tours == old(tours) && nextTourId == old(nextTourId) && nextStepId == old(nextStepId)
    {
      DeleteStepSpec(steps, tourId, stepId);
      AfterDeleteIssued(tourId, stepId);
      steps := AfterStepDeleted(steps, tourId, stepId);
    }

    /** Every row left by `deleteStep` is an old row renumbered, so its id was issued and its tour exists. */
    lemma AfterDeleteIssued(tourId: Id, stepId: Id)
      requires Valid()
      ensures forall x :: x in AfterStepDeleted(steps, tourId, stepId) ==> x.id < nextStepId && HasTour(tours, x.tourId)
    {
      var after := AfterStepDeleted(steps, tourId, stepId);
      var kept := WithoutStep(steps, tourId, stepId);
      forall x | x in after
        ensures x.id < nextStepId && HasTour(tours, x.tourId)
      {
        var k :| 0 <= k < |after| && after[k] == x;
        assert kept[k] in kept;
      }
    }

    /** `reorderSteps`: applies each `(id, order_index)` pair in turn, only to steps of `tourId`. */
    method ReorderSteps(tourId: Id, updates: seq<OrderUpdate>, now: int)
      requires Valid()
      modifies this
      ensures Valid()
      ensures steps == Reordered(old(steps), tourId, updates, now)
      ensures forall other :: other != tourId ==> StepsOf(steps, other) == StepsOf(old(steps), other)
      ensures tours == old(tours) && nextTourId == old(nextTourId) && nextStepId == old(nextStepId)
    {
      ghost var steps0 := steps;
      for i := 0 to |updates|
        invariant steps == Reordered(steps0, tourId, updates[..i], now)
        invariant Valid()
        invariant tours == old(tours) && nextTourId == old(nextTourId) && nextStepId == old(nextStepId)
      {
        assert updates[..i + 1][..i] == updates[..i];
        ApplyOrderUpdateValid(tourId, updates[i], now);
        steps := ApplyOrderUpdate(steps, tourId, updates[i], now);
      }
      assert updates[..|updates|] == updates;
      forall other | other != tourId
        ensures StepsOf(steps, other) == StepsOf(steps0, other)
      {
        ReorderedElsewhere(steps0, tourId, updates, now, other);
      }
    }

    lemma ApplyOrderUpdateValid(tourId: Id, u: OrderUpdate, now: int)
      requires Valid()
      ensures var ss := ApplyOrderUpdate(steps, tourId, u, now);
        TablesValid(tours, ss) && forall s :: s in ss ==> s.id < nextStepId
    {
      var ss := ApplyOrderUpdate(steps, tourId, u, now);
      forall x | x in ss
        ensures x.id < nextStepId && HasTour(tours, x.tourId)
      {
        var k :| 0 <= k < |ss| && ss[k] == x;
        assert steps[k] in steps;
      }
    }
  }
}
