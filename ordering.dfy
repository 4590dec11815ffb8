/** The `order_index` discipline of a tour's steps: dense numbering 0..N-1, the
    resequencing pass after a delete, the explicit reorder, the next position
    for an inserted step, and the step copies a duplicated tour receives. */
module Ordering {
  import opened Records
  import opened Sorting
  import opened Tables
  import opened Columns

  function OrderIndex(s: Step): int { s.orderIndex }

  /** `SELECT * FROM steps WHERE tour_id = $1 ORDER BY order_index ASC`. */
  function TourSteps(steps: seq<Step>, tourId: Id): (r: seq<Step>)
    ensures |r| == |StepsOf(steps, tourId)|
    ensures multiset(r) == multiset(StepsOf(steps, tourId))
    ensures forall s :: s in r <==> s in steps && s.tourId == tourId
    ensures forall i, j :: 0 <= i < j < |r| ==> r[i].orderIndex <= r[j].orderIndex
  {
    var sorted := SortBy(StepsOf(steps, tourId), OrderIndex);
    assert forall s :: s in sorted <==> s in StepsOf(steps, tourId) by {
      forall s ensures s in sorted <==> s in StepsOf(steps, tourId) {
        assert s in sorted <==> multiset(sorted)[s] > 0;
      }
    }
    assert forall i, j :: 0 <= i < j < |sorted| ==> OrderIndex(sorted[i]) <= OrderIndex(sorted[j]);
    sorted
  }

  // ---------------------------------------------------------------
  // Dense numbering
  // ---------------------------------------------------------------

  predicate DistinctOrders(ss: seq<Step>)
  {
    forall i, j :: 0 <= i < j < |ss| ==> ss[i].orderIndex != ss[j].orderIndex
  }

  /** The positions of `ss` are 0..|ss|-1: each in range, no two equal. */
  predicate Dense(ss: seq<Step>)
  {
    (forall i :: 0 <= i < |ss| ==> 0 <= ss[i].orderIndex < |ss|) && DistinctOrders(ss)
  }

  /** The invariant the store keeps for every tour. */
  predicate DenseFor(steps: seq<Step>, tourId: Id)
  {
    Dense(StepsOf(steps, tourId))
  }

  function OrderSet(ss: seq<Step>): set<int>
  {
    set i | 0 <= i < |ss| :: ss[i].orderIndex
  }

  /** The positions 0..n-1. */
  function Range(n: nat): (r: set<int>)
    ensures forall k :: k in r <==> 0 <= k < n
    ensures |r| == n
  {
    if n == 0 then {} else Range(n - 1) + {n - 1}
  }

  lemma {:induction false} OrderSetSize(ss: seq<Step>)
    requires DistinctOrders(ss)
    ensures |OrderSet(ss)| == |ss|
  {
    if ss != [] {
      var init, last := ss[..|ss| - 1], ss[|ss| - 1];
      assert DistinctOrders(init) by {
        forall i, j | 0 <= i < j < |init| ensures init[i].orderIndex != init[j].orderIndex {
          assert init[i] == ss[i] && init[j] == ss[j];
        }
      }
      OrderSetSize(init);
      assert OrderSet(ss) == OrderSet(init) + {last.orderIndex} by {
        forall x ensures x in OrderSet(ss) <==> x in OrderSet(init) + {last.orderIndex} {
          if x in OrderSet(ss) {
            var i :| 0 <= i < |ss| && ss[i].orderIndex == x;
            if i < |init| { assert init[i] == ss[i]; }
          }
          if x in OrderSet(init) {
            var i :| 0 <= i < |init| && init[i].orderIndex == x;
            assert ss[i] == init[i];
          }
        }
      }
      assert last.orderIndex !in OrderSet(init) by {
        forall i | 0 <= i < |init| ensures init[i].orderIndex != last.orderIndex {
          assert init[i] == ss[i];
        }
      }
    }
  }

  /** Pigeonhole: a dense tour uses every position 0..N-1 exactly once. */
  lemma DenseCovers(ss: seq<Step>)
    requires Dense(ss)
    ensures OrderSet(ss) == Range(|ss|)
  {
    var used, all := OrderSet(ss), Range(|ss|);
    OrderSetSize(ss);
    assert used <= all;
    assert used * all == used && used + all == all;
    assert |all - used| == 0;
    assert all - used == {};
  }

  /** Density does not depend on how the steps are listed. */
  lemma DensePermutation(a: seq<Step>, b: seq<Step>)
    requires multiset(a) == multiset(b)
    requires Dense(a)
    ensures Dense(b)
  {
    assert |a| == |multiset(a)| == |multiset(b)| == |b|;
    forall i | 0 <= i < |b|
      ensures 0 <= b[i].orderIndex < |b|
    {
      assert b[i] in multiset(b);
      var p :| 0 <= p < |a| && a[p] == b[i];
    }
    forall i, j | 0 <= i < j < |b|
      ensures b[i].orderIndex != b[j].orderIndex
    {
      assert b[i] in multiset(b) && b[j] in multiset(b);
      var p :| 0 <= p < |a| && a[p] == b[i];
      var q :| 0 <= q < |a| && a[q] == b[j];
      if p == q {
        TwoPositions(b, i, j);
        SecondPosition(a, b[i]);
        assert false;
      }
    }
  }

  // ---------------------------------------------------------------
  // Resequencing after a delete
  // ---------------------------------------------------------------

  /** A step's new position: its rank among its tour's steps in `ORDER BY order_index`. */
  function Reranked(ranked: seq<Step>, s: Step): (r: Step)
    ensures r == s.(orderIndex := r.orderIndex)
    ensures s in ranked ==> 0 <= r.orderIndex < |ranked| && ranked[r.orderIndex] == s
    ensures s !in ranked ==> r == s
  {
    if s in ranked then s.(orderIndex := IndexOf(ranked, s)) else s
  }

  /** `row_number() OVER (ORDER BY order_index ASC) - 1` written back to every step of `tourId`. */
  function Renumbered(steps: seq<Step>, tourId: Id): (r: seq<Step>)
    ensures |r| == |steps|
    ensures forall k :: 0 <= k < |steps| ==> r[k] == Reranked(TourSteps(steps, tourId), steps[k])
  {
    var ranked := TourSteps(steps, tourId);
    MapSteps(steps, (s: Step) => Reranked(ranked, s))
  }

  /** After the pass the tour's positions are exactly 0..N-1, whatever they were before. */
  lemma RenumberedDense(steps: seq<Step>, tourId: Id)
    requires UniqueStepIds(steps)
    ensures DenseFor(Renumbered(steps, tourId), tourId)
  {
    var ranked := TourSteps(steps, tourId);
    var f := (s: Step) => Reranked(ranked, s);
    var after := Renumbered(steps, tourId);
    assert after == MapSteps(steps, f);
    StepsOfMap(steps, f, tourId);
    var sibs := StepsOf(steps, tourId);
    StepsOfUnique(steps, tourId);
    var mine := MapSteps(sibs, f);
    forall i | 0 <= i < |mine|
      ensures 0 <= mine[i].orderIndex < |mine|
    {
      assert sibs[i] in sibs && sibs[i] in ranked;
    }
    forall i, j | 0 <= i < j < |mine|
      ensures mine[i].orderIndex != mine[j].orderIndex
    {
      assert sibs[i] in sibs && sibs[i] in ranked;
      assert sibs[j] in sibs && sibs[j] in ranked;
      assert sibs[i].id != sibs[j].id;
      var ki, kj := IndexOf(ranked, sibs[i]), IndexOf(ranked, sibs[j]);
      assert ranked[ki] == sibs[i] && ranked[kj] == sibs[j];
    }
  }

  /** The pass keeps the relative `order_index` order of the tour's steps. */
  lemma RenumberedKeepsOrder(steps: seq<Step>, tourId: Id, i: int, j: int)
    requires 0 <= i < |steps| && 0 <= j < |steps|
    requires steps[i].tourId == tourId && steps[j].tourId == tourId
    requires steps[i].orderIndex < steps[j].orderIndex
    ensures Renumbered(steps, tourId)[i].orderIndex < Renumbered(steps, tourId)[j].orderIndex
  {
    var ranked := TourSteps(steps, tourId);
    var after := Renumbered(steps, tourId);
    assert steps[i] in ranked && steps[j] in ranked;
    var ki, kj := IndexOf(ranked, steps[i]), IndexOf(ranked, steps[j]);
    assert after[i].orderIndex == ki && after[j].orderIndex == kj;
    RankFollowsKey(ranked, ki, kj);
  }

  /** In a list sorted by position, a smaller position comes earlier. */
  lemma RankFollowsKey(ranked: seq<Step>, ki: int, kj: int)
    requires forall i, j :: 0 <= i < j < |ranked| ==> ranked[i].orderIndex <= ranked[j].orderIndex
    requires 0 <= ki < |ranked| && 0 <= kj < |ranked|
    requires ranked[ki].orderIndex < ranked[kj].orderIndex
    ensures ki < kj
  {
  }

  /** The pass leaves the step lists of all other tours identical. */
  lemma RenumberedElsewhere(steps: seq<Step>, tourId: Id, other: Id)
    requires other != tourId
    ensures StepsOf(Renumbered(steps, tourId), other) == StepsOf(steps, other)
  {
    var ranked := TourSteps(steps, tourId);
    var f := (s: Step) => Reranked(ranked, s);
    assert Renumbered(steps, tourId) == MapSteps(steps, f);
    StepsOfMap(steps, f, other);
    var theirs := StepsOf(steps, other);
    forall k | 0 <= k < |theirs|
      ensures f(theirs[k]) == theirs[k]
    {
      assert theirs[k] in theirs && theirs[k] !in ranked;
    }
    assert MapSteps(theirs, f) == theirs;
  }

  /** `deleteStep`: the delete followed by the resequencing pass, in one transaction. */
  function AfterStepDeleted(steps: seq<Step>, tourId: Id, stepId: Id): (r: seq<Step>)
    ensures var kept := WithoutStep(steps, tourId, stepId);
      && |r| == |kept|
      && forall k :: 0 <= k < |r| ==> r[k] == kept[k].(orderIndex := r[k].orderIndex)
  {
    Renumbered(WithoutStep(steps, tourId, stepId), tourId)
  }

  /** Everything `deleteStep` promises about the step table. */
  lemma DeleteStepSpec(steps: seq<Step>, tourId: Id, stepId: Id)
    requires UniqueStepIds(steps)
    ensures var after := AfterStepDeleted(steps, tourId, stepId);
      && (forall s :: s in after ==> !(s.id == stepId && s.tourId == tourId))
      && DenseFor(after, tourId)
      && (forall other :: other != tourId ==> StepsOf(after, other) == StepsOf(steps, other))
      && UniqueStepIds(after)
      && |after| == |WithoutStep(steps, tourId, stepId)|
      && forall k :: 0 <= k < |after| ==>
           after[k] == WithoutStep(steps, tourId, stepId)[k].(orderIndex := after[k].orderIndex)
  {
    var kept := WithoutStep(steps, tourId, stepId);
    var after := AfterStepDeleted(steps, tourId, stepId);
    WithoutStepUnique(steps, tourId, stepId);
    RenumberedDense(kept, tourId);
    forall other | other != tourId
      ensures StepsOf(after, other) == StepsOf(steps, other)
    {
      RenumberedElsewhere(kept, tourId, other);
      WithoutStepElsewhere(steps, tourId, stepId, other);
    }
    forall s | s in after
      ensures !(s.id == stepId && s.tourId == tourId)
    {
      var k :| 0 <= k < |after| && after[k] == s;
      assert kept[k] in kept;
    }
    forall i, j | 0 <= i < j < |after|
      ensures after[i].id != after[j].id
    {
      assert after[i].id == kept[i].id && after[j].id == kept[j].id;
    }
  }

  /** Rewriting a step without moving it keeps every tour's numbering as it was. */
  lemma ReplaceStepKeepsDense(steps: seq<Step>, s: Step, tourId: Id)
    requires forall k :: 0 <= k < |steps| && steps[k].id == s.id && steps[k].tourId == s.tourId ==>
      steps[k].orderIndex == s.orderIndex
    requires DenseFor(steps, tourId)
    ensures DenseFor(ReplaceStep(steps, s), tourId)
  {
    var f := (x: Step) => if x.id == s.id && x.tourId == s.tourId then s else x;
    assert ReplaceStep(steps, s) == MapSteps(steps, f);
    StepsOfMap(steps, f, tourId);
    var sibs := StepsOf(steps, tourId);
    var mine := MapSteps(sibs, f);
    forall k | 0 <= k < |sibs|
      ensures mine[k].orderIndex == sibs[k].orderIndex
    {
      assert sibs[k] in steps;
      var m :| 0 <= m < |steps| && steps[m] == sibs[k];
    }
  }

  /** Copying one more source step appends one more copy. */
  lemma CopiesSnoc(src: seq<Step>, i: int, tourId: Id, firstId: Id, now: int)
    requires 0 <= i < |src|
    ensures Copies(src[..i + 1], tourId, firstId, now)
         == Copies(src[..i], tourId, firstId, now) + [CopyOf(src[i], tourId, firstId + i, now)]
  {
  }

  /** Rewriting a found step in place, keeping its id, owner and position, keeps every tour's
      numbering, and the table then holds only old rows and the new one. */
  lemma ReplaceFoundStep(steps: seq<Step>, found: Step, s: Step)
    requires UniqueStepIds(steps)
    requires found in steps
    requires s.id == found.id && s.tourId == found.tourId && s.orderIndex == found.orderIndex
    ensures forall t :: DenseFor(steps, t) ==> DenseFor(ReplaceStep(steps, s), t)
    ensures forall x :: x in ReplaceStep(steps, s) ==> x in steps || x == s
  {
    var m :| 0 <= m < |steps| && steps[m] == found;
    forall k | 0 <= k < |steps| && steps[k].id == s.id && steps[k].tourId == s.tourId
      ensures steps[k].orderIndex == s.orderIndex
    {
      assert k == m;
    }
    forall t | DenseFor(steps, t)
      ensures DenseFor(ReplaceStep(steps, s), t)
    {
      ReplaceStepKeepsDense(steps, s, t);
    }
    var rs := ReplaceStep(steps, s);
    forall x | x in rs
      ensures x in steps || x == s
    {
      var k :| 0 <= k < |rs| && rs[k] == x;
    }
  }

  /** Orders [0, 1, 2]; deleting the middle step leaves the other two at [0, 1]. */
  lemma DeleteMiddleExample(a: Step, b: Step, c: Step)
    requires a.tourId == b.tourId == c.tourId
    requires a.id == 1 && b.id == 2 && c.id == 3
    requires a.orderIndex == 0 && b.orderIndex == 1 && c.orderIndex == 2
    ensures var after := AfterStepDeleted([a, b, c], a.tourId, 2);
      |after| == 2 && after[0] == a && after[1] == c.(orderIndex := 1)
  {
    ExampleKept(a, b, c);
    RenumberedPair([a, c], a.tourId);
  }

  /** Two steps of a tour keep their order and are renumbered 0 and 1. */
  lemma RenumberedPair(kept: seq<Step>, t: Id)
    requires |kept| == 2 && kept[0].tourId == t && kept[1].tourId == t
    requires kept[0].id != kept[1].id
    requires kept[0].orderIndex < kept[1].orderIndex
    ensures Renumbered(kept, t) == [kept[0].(orderIndex := 0), kept[1].(orderIndex := 1)]
  {
    var after := Renumbered(kept, t);
    assert UniqueStepIds(kept);
    RenumberedDense(kept, t);
    RenumberedKeepsOrder(kept, t, 0, 1);
    PairPositions(kept, after, t);
  }

  lemma PairPositions(kept: seq<Step>, after: seq<Step>, t: Id)
    requires |kept| == 2 && |after| == 2
    requires after[0] == kept[0].(orderIndex := after[0].orderIndex)
    requires after[1] == kept[1].(orderIndex := after[1].orderIndex)
    requires kept[0].tourId == t && kept[1].tourId == t
    requires DenseFor(after, t)
    requires after[0].orderIndex < after[1].orderIndex
    ensures after == [kept[0].(orderIndex := 0), kept[1].(orderIndex := 1)]
  {
    StepsOfAll(after, t);
    DensePair(after);
  }

  /** Two densely numbered steps in increasing order sit at 0 and 1. */
  lemma DensePair(ss: seq<Step>)
    requires |ss| == 2 && Dense(ss)
    requires ss[0].orderIndex < ss[1].orderIndex
    ensures ss[0].orderIndex == 0 && ss[1].orderIndex == 1
  {
    assert 0 <= ss[0].orderIndex < 2 && 0 <= ss[1].orderIndex < 2;
  }

  lemma ExampleKept(a: Step, b: Step, c: Step)
    requires a.tourId == b.tourId == c.tourId
    requires a.id == 1 && b.id == 2 && c.id == 3
    ensures WithoutStep([a, b, c], a.tourId, 2) == [a, c]
  {
    var t := a.tourId;
    assert [a, b, c][..2] == [a, b] && [a, b][..1] == [a] && [a][..0] == [];
    assert WithoutStep([a], t, 2) == [a];
    assert WithoutStep([a, b], t, 2) == [a];
  }

  // ---------------------------------------------------------------
  // Explicit reorder
  // ---------------------------------------------------------------

  /** The position the last pair naming `id` assigns, if any pair does. */
  function LastOrderFor(updates: seq<OrderUpdate>, id: Id): (r: Option<int>)
    ensures r.None? <==> forall k :: 0 <= k < |updates| ==> updates[k].id != id
    ensures r.Some? ==> exists k :: && 0 <= k < |updates| && updates[k] == OrderUpdate(id, r.value)
                                    && forall j :: k < j < |updates| ==> updates[j].id != id
  {
    if updates == [] then None
    else if updates[|updates| - 1].id == id then Some(updates[|updates| - 1].orderIndex)
    else LastOrderFor(updates[..|updates| - 1], id)
  }

  /** A step after a whole reorder request: the last pair naming it wins, and only within `tourId`. */
  function ReorderedStep(s: Step, tourId: Id, updates: seq<OrderUpdate>, now: int): (r: Step)
    ensures r == s.(orderIndex := r.orderIndex, updatedAt := r.updatedAt)
    ensures (s.tourId != tourId || forall k :: 0 <= k < |updates| ==> updates[k].id != s.id) ==> r == s
    ensures r != s ==> r.updatedAt == now
  {
    var o := LastOrderFor(updates, s.id);
    if s.tourId == tourId && o.Some? then s.(orderIndex := o.value, updatedAt := now) else s
  }

  /** One `UPDATE steps SET order_index = $1, updated_at = NOW() WHERE id = $2 AND tour_id = $3`. */
  function ApplyOrderUpdate(steps: seq<Step>, tourId: Id, u: OrderUpdate, now: int): (r: seq<Step>)
    ensures |r| == |steps|
    ensures forall k :: 0 <= k < |steps| && steps[k].id == u.id && steps[k].tourId == tourId ==>
      r[k] == steps[k].(orderIndex := u.orderIndex, updatedAt := now)
    ensures forall k :: 0 <= k < |steps| && !(steps[k].id == u.id && steps[k].tourId == tourId) ==> r[k] == steps[k]
  {
    MapSteps(steps, (s: Step) =>
      if s.id == u.id && s.tourId == tourId then s.(orderIndex := u.orderIndex, updatedAt := now) else s)
  }

  /** The reorder request's updates, applied in order. */
  function Reordered(steps: seq<Step>, tourId: Id, updates: seq<OrderUpdate>, now: int): (r: seq<Step>)
    ensures |r| == |steps|
    ensures forall k :: 0 <= k < |steps| ==> r[k] == ReorderedStep(steps[k], tourId, updates, now)
    decreases |updates|
  {
    if updates == [] then steps
    else ApplyOrderUpdate(Reordered(steps, tourId, updates[..|updates| - 1], now), tourId, updates[|updates| - 1], now)
  }

  predicate DistinctUpdateIds(updates: seq<OrderUpdate>)
  {
    forall i, j :: 0 <= i < j < |updates| ==> updates[i].id != updates[j].id
  }

  lemma {:induction false} LastOrderForDistinct(updates: seq<OrderUpdate>, j: int)
    requires DistinctUpdateIds(updates)
    requires 0 <= j < |updates|
    ensures LastOrderFor(updates, updates[j].id) == Some(updates[j].orderIndex)
  {
    var n := |updates|;
    if j < n - 1 {
      var init := updates[..n - 1];
      assert init[j] == updates[j];
      assert DistinctUpdateIds(init) by {
        forall a, b | 0 <= a < b < |init| ensures init[a].id != init[b].id {
          assert init[a] == updates[a] && init[b] == updates[b];
        }
      }
      LastOrderForDistinct(init, j);
    }
  }

  /** A reorder that names every step of the tour once and assigns the positions
      0..N-1 leaves the tour densely numbered. */
  lemma ReorderedDense(steps: seq<Step>, tourId: Id, updates: seq<OrderUpdate>, now: int)
    requires UniqueStepIds(steps)
    requires DistinctUpdateIds(updates)
    requires |updates| == |StepsOf(steps, tourId)|
    requires forall s :: s in steps && s.tourId == tourId ==>
      exists j :: 0 <= j < |updates| && updates[j].id == s.id
    requires forall j :: 0 <= j < |updates| ==> 0 <= updates[j].orderIndex < |updates|
    requires forall i, j :: 0 <= i < j < |updates| ==> updates[i].orderIndex != updates[j].orderIndex
    ensures DenseFor(Reordered(steps, tourId, updates, now), tourId)
  {
    var f := (s: Step) => ReorderedStep(s, tourId, updates, now);
    assert Reordered(steps, tourId, updates, now) == MapSteps(steps, f);
    StepsOfMap(steps, f, tourId);
    var sibs := StepsOf(steps, tourId);
    StepsOfUnique(steps, tourId);
    forall k | 0 <= k < |sibs|
      ensures sibs[k].tourId == tourId
      ensures exists j :: 0 <= j < |updates| && updates[j].id == sibs[k].id
    {
      assert sibs[k] in sibs;
    }
    ReorderedSiblingsDense(sibs, MapSteps(sibs, f), tourId, updates, now);
  }

  lemma ReorderedSiblingsDense(sibs: seq<Step>, mine: seq<Step>, tourId: Id, updates: seq<OrderUpdate>, now: int)
    requires UniqueStepIds(sibs)
    requires DistinctUpdateIds(updates)
    requires |updates| == |sibs| == |mine|
    requires forall k :: 0 <= k < |sibs| ==> sibs[k].tourId == tourId
    requires forall k :: 0 <= k < |sibs| ==> mine[k] == ReorderedStep(sibs[k], tourId, updates, now)
    requires forall k :: 0 <= k < |sibs| ==> exists j :: 0 <= j < |updates| && updates[j].id == sibs[k].id
    requires forall j :: 0 <= j < |updates| ==> 0 <= updates[j].orderIndex < |updates|
    requires forall i, j :: 0 <= i < j < |updates| ==> updates[i].orderIndex != updates[j].orderIndex
    ensures Dense(mine)
  {
    forall k | 0 <= k < |sibs|
      ensures exists j :: 0 <= j < |updates| && updates[j].id == sibs[k].id
                && mine[k].orderIndex == updates[j].orderIndex
    {
      var j :| 0 <= j < |updates| && updates[j].id == sibs[k].id;
      LastOrderForDistinct(updates, j);
    }
    forall i, k | 0 <= i < k < |mine|
      ensures mine[i].orderIndex != mine[k].orderIndex
    {
      var ji :| 0 <= ji < |updates| && updates[ji].id == sibs[i].id && mine[i].orderIndex == updates[ji].orderIndex;
      var jk :| 0 <= jk < |updates| && updates[jk].id == sibs[k].id && mine[k].orderIndex == updates[jk].orderIndex;
      assert ji != jk;
    }
  }

  /** Steps the request does not name, and steps of other tours, keep their row unchanged. */
  lemma ReorderedUntouched(steps: seq<Step>, tourId: Id, updates: seq<OrderUpdate>, now: int, k: int)
    requires 0 <= k < |steps|
    requires steps[k].tourId != tourId || forall j :: 0 <= j < |updates| ==> updates[j].id != steps[k].id
    ensures Reordered(steps, tourId, updates, now)[k] == steps[k]
  {
    if steps[k].tourId == tourId {
      LastOrderForAbsent(updates, steps[k].id);
    }
  }

  /** A reorder scoped to one tour leaves every other tour's steps exactly as they were. */
  lemma ReorderedElsewhere(steps: seq<Step>, tourId: Id, updates: seq<OrderUpdate>, now: int, other: Id)
    requires other != tourId
    ensures StepsOf(Reordered(steps, tourId, updates, now), other) == StepsOf(steps, other)
  {
    var f := (s: Step) => ReorderedStep(s, tourId, updates, now);
    assert Reordered(steps, tourId, updates, now) == MapSteps(steps, f);
    StepsOfMap(steps, f, other);
    var theirs := StepsOf(steps, other);
    forall k | 0 <= k < |theirs|
      ensures f(theirs[k]) == theirs[k]
    {
      assert theirs[k] in theirs;
    }
    assert MapSteps(theirs, f) == theirs;
  }

  lemma {:induction false} LastOrderForAbsent(updates: seq<OrderUpdate>, id: Id)
    requires forall j :: 0 <= j < |updates| ==> updates[j].id != id
    ensures LastOrderFor(updates, id) == None
  {
    if updates != [] {
      var init := updates[..|updates| - 1];
      assert forall j :: 0 <= j < |init| ==> init[j] == updates[j];
      LastOrderForAbsent(init, id);
    }
  }

  // ---------------------------------------------------------------
  // Appending a step
  // ---------------------------------------------------------------

  function MaxOrder(ss: seq<Step>): (m: int)
    requires ss != []
    ensures m in OrderSet(ss)
    ensures forall k :: 0 <= k < |ss| ==> ss[k].orderIndex <= m
  {
    if |ss| == 1 then ss[0].orderIndex
    else
      var rest := MaxOrder(ss[1..]);
      assert forall k :: 1 <= k < |ss| ==> ss[k] == ss[1..][k - 1];
      assert rest in OrderSet(ss) by {
        var k :| 0 <= k < |ss[1..]| && ss[1..][k].orderIndex == rest;
        assert ss[k + 1].orderIndex == rest;
      }
      if ss[0].orderIndex >= rest then ss[0].orderIndex else rest
  }

  /** `MAX(order_index) + 1` over the tour's steps, or 0 when it has none. */
  function NextOrder(steps: seq<Step>, tourId: Id): (r: int)
    ensures StepsOf(steps, tourId) == [] ==> r == 0
    ensures StepsOf(steps, tourId) != [] ==> r - 1 in OrderSet(StepsOf(steps, tourId))
    ensures forall s :: s in steps && s.tourId == tourId ==> s.orderIndex < r
  {
    var sibs := StepsOf(steps, tourId);
    if sibs == [] then 0
    else
      assert forall s :: s in sibs ==> exists k :: 0 <= k < |sibs| && sibs[k] == s;
      MaxOrder(sibs) + 1
  }

  /** On a dense tour of N steps the next position is N. */
  lemma NextOrderOfDense(steps: seq<Step>, tourId: Id)
    requires DenseFor(steps, tourId)
    ensures NextOrder(steps, tourId) == |StepsOf(steps, tourId)|
  {
    var sibs := StepsOf(steps, tourId);
    var n := |sibs|;
    if n > 0 {
      DenseCovers(sibs);
      assert n - 1 in OrderSet(sibs);
      var k :| 0 <= k < n && sibs[k].orderIndex == n - 1;
      assert sibs[k] in steps;
      var m :| 0 <= m < n && sibs[m].orderIndex == NextOrder(steps, tourId) - 1;
    }
  }

  /** A dense list stays dense when a step at position N joins its N steps. */
  lemma DenseSnoc(ss: seq<Step>, x: Step)
    requires Dense(ss)
    requires x.orderIndex == |ss|
    ensures Dense(ss + [x])
  {
    var after := ss + [x];
    assert forall i :: 0 <= i < |ss| ==> after[i] == ss[i];
  }

  /** Appending at `NextOrder` keeps a dense tour dense, at the next position N. */
  lemma AppendKeepsDense(steps: seq<Step>, s: Step)
    requires s.orderIndex == NextOrder(steps, s.tourId)
    requires DenseFor(steps, s.tourId)
    ensures s.orderIndex == |StepsOf(steps, s.tourId)|
    ensures DenseFor(steps + [s], s.tourId)
  {
    NextOrderOfDense(steps, s.tourId);
    assert (steps + [s])[..|steps|] == steps;
    assert StepsOf(steps + [s], s.tourId) == StepsOf(steps, s.tourId) + [s];
    DenseSnoc(StepsOf(steps, s.tourId), s);
  }

  /** Appending a step of one tour leaves other tours' step lists as they were. */
  lemma AppendElsewhere(steps: seq<Step>, s: Step, other: Id)
    requires other != s.tourId
    ensures StepsOf(steps + [s], other) == StepsOf(steps, other)
  {
    assert (steps + [s])[..|steps|] == steps;
  }

  // ---------------------------------------------------------------
  // Copying a tour's steps
  // ---------------------------------------------------------------

  /** The copy `duplicateTour` inserts: same content and position, a new id and
      owner, and no translations (the column's default `{}`). */
  function CopyOf(s: Step, tourId: Id, id: Id, now: int): (r: Step)
    ensures r.id == id && r.tourId == tourId && r.orderIndex == s.orderIndex
    ensures r.translations == Some(map[])
    ensures forall k :: k != "translations" ==> StepColumn(r, k) == StepColumn(s, k)
  {
    s.(id := id, tourId := tourId, translations := Some(map[]), createdAt := now, updatedAt := now)
  }

  function Copies(src: seq<Step>, tourId: Id, firstId: Id, now: int): (r: seq<Step>)
    ensures |r| == |src|
    ensures forall k :: 0 <= k < |src| ==> r[k] == CopyOf(src[k], tourId, firstId + k, now)
  {
    seq(|src|, k requires 0 <= k < |src| => CopyOf(src[k], tourId, firstId + k, now))
  }

  /** Copying keeps every position, so a dense list of steps copies to a dense list. */
  lemma CopiesKeepDense(src: seq<Step>, tourId: Id, firstId: Id, now: int)
    requires Dense(src)
    ensures Dense(Copies(src, tourId, firstId, now))
  {
    var copies := Copies(src, tourId, firstId, now);
    assert forall k :: 0 <= k < |src| ==> copies[k].orderIndex == src[k].orderIndex;
  }

  /** The copies all belong to the new tour, and are all of its steps. */
  lemma CopiesOwned(steps: seq<Step>, src: seq<Step>, copy: Id, firstId: Id, now: int)
    requires forall s :: s in steps ==> s.tourId != copy
    ensures StepsOf(steps + Copies(src, copy, firstId, now), copy) == Copies(src, copy, firstId, now)
  {
    var copies := Copies(src, copy, firstId, now);
    StepsOfAppend(steps, copies, copy);
    StepsOfNone(steps, copy);
    StepsOfAll(copies, copy);
    assert [] + copies == copies;
  }

  /** The copy of a densely numbered tour is a densely numbered tour of its own. */
  lemma CopiesDense(steps: seq<Step>, source: Id, copy: Id, firstId: Id, now: int)
    requires DenseFor(steps, source)
    requires forall s :: s in steps ==> s.tourId != copy
    ensures var copies := Copies(TourSteps(steps, source), copy, firstId, now);
      StepsOf(steps + copies, copy) == copies && Dense(copies)
  {
    var sorted := TourSteps(steps, source);
    DensePermutation(StepsOf(steps, source), sorted);
    CopiesKeepDense(sorted, copy, firstId, now);
    CopiesOwned(steps, sorted, copy, firstId, now);
  }
}
