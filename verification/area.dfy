/**
 * `_compute_area`: a location of kind `area` takes its own name as its
 * area; any other location copies the area its parent holds, or gets an
 * empty area when it has no parent.
 */
module LocationArea {
  import opened Wrappers
  import opened LocationTree

  predicate IsAreaKind(l: Location) {
    l.kind == Area
  }

  /** The area `_compute_area` gives `id`, reading the areas currently stored. */
  function AreaRule(locs: Locations, id: LocId): string
    requires id in locs
  {
    if locs[id].kind == Area then locs[id].name
    else match locs[id].parent
      case None => ""
      case Some(p) => if p in locs then locs[p].area else ""
  }

  /** The stored area of `id` is the one the rule gives. */
  ghost predicate AreaHolds(locs: Locations, id: LocId)
    requires id in locs
  {
    locs[id].area == AreaRule(locs, id)
  }

  /** Every stored area agrees with the rule: the state the recompute maintains. */
  ghost predicate AreasConsistent(locs: Locations) {
    forall id | id in locs :: AreaHolds(locs, id)
  }

  /** `locs'` differs from `locs` in areas at most. */
  ghost predicate SameExceptArea(locs: Locations, locs': Locations) {
    && locs.Keys == locs'.Keys
    && forall id | id in locs :: locs'[id] == locs[id].(area := locs'[id].area)
  }

  /** No location of the batch comes before its parent. */
  ghost predicate ParentFirst(locs: Locations, batch: seq<LocId>)
    requires forall i | 0 <= i < |batch| :: batch[i] in locs
  {
    forall i, j | 0 <= i < j < |batch| :: locs[batch[i]].parent != Some(batch[j])
  }

  ghost predicate Distinct(batch: seq<LocId>) {
    forall i, j | 0 <= i < j < |batch| :: batch[i] != batch[j]
  }

  /**
   * The locations after `_compute_area` has run over `batch` in order; each
   * step reads the areas left by the steps before it.
   */
  function AssignAreas(locs: Locations, batch: seq<LocId>): (r: Locations)
    requires forall i | 0 <= i < |batch| :: batch[i] in locs
    ensures SameExceptArea(locs, r)
    ensures forall id | id in locs && id !in batch :: r[id] == locs[id]
  {
    if batch == [] then locs
    else
      AssignArea(AssignAreas(locs, batch[..|batch| - 1]), batch[|batch| - 1])
  }

  /** The loop of `_compute_area`: each location of `batch` in turn, reading the areas written so far. */
  method RecomputeAreas(locs: Locations, ghost rank: map<LocId, nat>, batch: seq<LocId>) returns (m: Locations)
    requires Ranked(locs, rank)
    requires forall i | 0 <= i < |batch| :: batch[i] in locs
    ensures m == AssignAreas(locs, batch)
  {
    m := locs;
    for i := 0 to |batch|
      invariant m == AssignAreas(locs, batch[..i])
    {
      AssignAreasStep(locs, rank, batch, i);
      var id := batch[i];
      var area: string;
      if m[id].kind == Area {
        area := m[id].name;
      } else if m[id].parent.Some? {
        area := m[m[id].parent.value].area;
      } else {
        area := "";
      }
      assert area == AreaRule(m, id);
      m := m[id := m[id].(area := area)];
    }
    assert batch[..|batch|] == batch;
  }

  /** The name of the nearest location of kind `area`, counting `id` itself; empty when there is none. */
  function NearestAreaName(locs: Locations, ghost rank: map<LocId, nat>, id: LocId): string
    requires Ranked(locs, rank) && id in locs
  {
    match Nearest(locs, rank, id, IsAreaKind)
    case None => ""
    case Some(a) => locs[a].name
  }

  /** After the recompute, every location of kind `area` in the batch has its own name as area. */
  lemma {:induction false} AreaKindTakesOwnName(locs: Locations, batch: seq<LocId>)
    requires forall i | 0 <= i < |batch| :: batch[i] in locs
    ensures forall i | 0 <= i < |batch| && locs[batch[i]].kind == Area ::
      AssignAreas(locs, batch)[batch[i]].area == locs[batch[i]].name
  {
    if batch != [] {
      var prefix := batch[..|batch| - 1];
      AreaKindTakesOwnName(locs, prefix);
      forall i | 0 <= i < |batch| - 1
        ensures batch[i] == prefix[i]
      {
      }
    }
  }

  /** One step of the recompute: the area `x` gets from the rule. */
  function AssignArea(m: Locations, x: LocId): (r: Locations)
    requires x in m
    ensures SameExceptArea(m, r)
    ensures forall y | y in m && y != x :: r[y] == m[y]
  {
    m[x := m[x].(area := AreaRule(m, x))]
  }

  /** A step on `x` keeps the rule holding at every other location whose parent is not `x`. */
  lemma AreaHoldsAfterOtherStep(m: Locations, x: LocId, y: LocId)
    requires x in m && y in m && x != y
    requires m[y].parent != Some(x)
    requires AreaHolds(m, y)
    ensures AreaHolds(AssignArea(m, x), y)
  {
  }

  /** A step on `x` makes the rule hold at `x`, as long as `x` is not its own parent. */
  lemma AreaHoldsAfterOwnStep(m: Locations, x: LocId)
    requires x in m && m[x].parent != Some(x)
    ensures AreaHolds(AssignArea(m, x), x)
  {
  }

  /**
   * Run over a batch of distinct locations in which no location comes
   * before its parent, the recompute leaves every location of the batch
   * with the area the rule gives: its own name for kind `area`, otherwise
   * its parent's area, or empty at a root.
   */
  lemma {:induction false} AssignAreasParentFirst(locs: Locations, rank: map<LocId, nat>, batch: seq<LocId>)
    requires Ranked(locs, rank)
    requires forall i | 0 <= i < |batch| :: batch[i] in locs
    requires Distinct(batch) && ParentFirst(locs, batch)
    ensures forall i | 0 <= i < |batch| :: AreaHolds(AssignAreas(locs, batch), batch[i])
  {
    if batch != [] {
      var n := |batch| - 1;
      var prefix, x := batch[..n], batch[n];
      assert forall i | 0 <= i < n :: prefix[i] == batch[i];
      AssignAreasParentFirst(locs, rank, prefix);
      assert locs[x].parent != Some(x) by {
        if locs[x].parent.Some? {
          assert rank[locs[x].parent.value] < rank[x];
        }
      }
      assert forall i | 0 <= i < n :: batch[i] != x;
      assert forall i | 0 <= i < n :: locs[batch[i]].parent != Some(x);
      assert forall i | 0 <= i < n :: AreaHolds(AssignAreas(locs, prefix), batch[i]);
      StepKeepsAreas(locs, batch);
    }
  }

  /**
   * The last step of a batch keeps every earlier location of the batch
   * satisfying the rule, and makes the last one satisfy it, when the last
   * one is new to the batch and is not the parent of any earlier one.
   */
  lemma StepKeepsAreas(locs: Locations, batch: seq<LocId>)
    requires batch != [] && forall i | 0 <= i < |batch| :: batch[i] in locs
    requires forall i | 0 <= i < |batch| - 1 :: AreaHolds(AssignAreas(locs, batch[..|batch| - 1]), batch[i])
    requires forall i | 0 <= i < |batch| - 1 :: batch[i] != batch[|batch| - 1]
    requires locs[batch[|batch| - 1]].parent != Some(batch[|batch| - 1])
    requires forall i | 0 <= i < |batch| - 1 :: locs[batch[i]].parent != Some(batch[|batch| - 1])
    ensures forall i | 0 <= i < |batch| :: AreaHolds(AssignAreas(locs, batch), batch[i])
  {
    var x := batch[|batch| - 1];
    var m := AssignAreas(locs, batch[..|batch| - 1]);
    assert AssignAreas(locs, batch) == AssignArea(m, x);
    forall i | 0 <= i < |batch|
      ensures AreaHolds(AssignArea(m, x), batch[i])
    {
      assert m[batch[i]].parent == locs[batch[i]].parent;
      if i < |batch| - 1 {
        AreaHoldsAfterOtherStep(m, x, batch[i]);
      } else {
        AreaHoldsAfterOwnStep(m, x);
      }
    }
  }

  /** A recompute that covers every location in parent-first order makes all areas consistent. */
  lemma AssignAllAreas(locs: Locations, rank: map<LocId, nat>, batch: seq<LocId>)
    requires Ranked(locs, rank)
    requires forall i | 0 <= i < |batch| :: batch[i] in locs
    requires forall id | id in locs :: id in batch
    requires Distinct(batch) && ParentFirst(locs, batch)
    ensures AreasConsistent(AssignAreas(locs, batch))
  {
    AssignAreasParentFirst(locs, rank, batch);
    var r := AssignAreas(locs, batch);
    forall id | id in r
      ensures AreaHolds(r, id)
    {
      var i :| 0 <= i < |batch| && batch[i] == id;
    }
  }

  /**
   * When every area is consistent, the area of a location is the name of
   * its nearest location of kind `area`, counting itself, or empty.
   */
  lemma {:induction false} ConsistentAreaIsNearestAreaName(locs: Locations, rank: map<LocId, nat>, id: LocId)
    requires Ranked(locs, rank) && AreasConsistent(locs) && id in locs
    ensures locs[id].area == NearestAreaName(locs, rank, id)
    decreases rank[id]
  {
    assert AreaHolds(locs, id);
    if locs[id].kind != Area {
      match locs[id].parent
      case None =>
      case Some(p) => ConsistentAreaIsNearestAreaName(locs, rank, p);
    }
  }

  /**
   * The consistent areas are determined by the tree, the kinds and the
   * names: two consistent states that differ in areas at most are equal.
   */
  lemma ConsistentAreasUnique(locs: Locations, locs': Locations, rank: map<LocId, nat>)
    requires Ranked(locs, rank) && SameExceptArea(locs, locs')
    requires AreasConsistent(locs) && AreasConsistent(locs')
    ensures locs' == locs
  {
    assert SameShape(locs, locs');
    forall id | id in locs
      ensures locs'[id] == locs[id]
    {
      NearestAgrees(locs, locs', rank, id, IsAreaKind);
      ConsistentAreaIsNearestAreaName(locs, rank, id);
      ConsistentAreaIsNearestAreaName(locs', rank, id);
    }
  }

  /** Recomputing consistent areas changes nothing, whatever the batch. */
  lemma {:induction false} AssignAreasIdempotent(locs: Locations, batch: seq<LocId>)
    requires AreasConsistent(locs)
    requires forall i | 0 <= i < |batch| :: batch[i] in locs
    ensures AssignAreas(locs, batch) == locs
  {
    if batch != [] {
      AssignAreasIdempotent(locs, batch[..|batch| - 1]);
      var x := batch[|batch| - 1];
      assert AreaHolds(locs, x);
      assert AssignArea(locs, x) == locs;
    }
  }

  /** One more location of the batch: the run on `batch[..i + 1]` continues the run on `batch[..i]`. */
  lemma AssignAreasStep(locs: Locations, rank: map<LocId, nat>, batch: seq<LocId>, i: nat)
    requires Ranked(locs, rank)
    requires forall j | 0 <= j < |batch| :: batch[j] in locs
    requires i < |batch|
    ensures Ranked(AssignAreas(locs, batch[..i]), rank)
    ensures AssignAreas(locs, batch[..i + 1]) == AssignArea(AssignAreas(locs, batch[..i]), batch[i])
  {
    assert batch[..i + 1][..i] == batch[..i];
    assert SameShape(locs, AssignAreas(locs, batch[..i]));
    SameShapeRanked(locs, AssignAreas(locs, batch[..i]), rank);
  }

  lemma AssignAreasRanked(locs: Locations, rank: map<LocId, nat>, batch: seq<LocId>)
    requires Ranked(locs, rank)
    requires forall j | 0 <= j < |batch| :: batch[j] in locs
    ensures Ranked(AssignAreas(locs, batch), rank)
  {
    assert SameShape(locs, AssignAreas(locs, batch));
    SameShapeRanked(locs, AssignAreas(locs, batch), rank);
  }
}
