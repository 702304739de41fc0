/**
 * The stock locations as records updated in place: the recompute of areas
 * and names assigns the fields of the locations it runs over, one after
 * another, and the unique-name check reads them.
 */
module StockLocation {
  import opened Wrappers
  import opened LocationTree
  import opened NameFormat
  import opened LocationArea
  import opened LocationNaming
  import opened ZoneUniqueName

  class LocationTable {
    /** The stored locations, by id. */
    var locs: Locations
    /** A rank that decreases toward the root; it exists because the tree has no cycle. */
    ghost var rank: map<LocId, nat>

    ghost predicate Valid()
      reads this
    {
      Ranked(locs, rank)
    }

    constructor (locs: Locations, ghost rank: map<LocId, nat>)
      requires Ranked(locs, rank)
      ensures Valid() && this.locs == locs && this.rank == rank
    {
      this.locs := locs;
      this.rank := rank;
    }

    /** `_compute_area` over the locations of `batch`, in order. */
    method ComputeArea(batch: seq<LocId>)
      requires Valid()
      requires forall i | 0 <= i < |batch| :: batch[i] in locs
      modifies this
      ensures Valid() && rank == old(rank)
      ensures locs == AssignAreas(old(locs), batch)
    {
      AssignAreasRanked(locs, rank, batch);
      locs := RecomputeAreas(locs, rank, batch);
    }

    /**
     * `_compute_name` over the locations of `batch`, in order. A rendering
     * error is raised out of the compute, and the transaction it aborts
     * leaves every stored name as it was.
     */
    method ComputeName(batch: seq<LocId>) returns (outcome: Outcome<RenderError>)
      requires Valid()
      requires forall i | 0 <= i < |batch| :: batch[i] in locs
      modifies this
      ensures Valid() && rank == old(rank)
      ensures outcome.Pass? <==> AssignNames(old(locs), rank, batch).Ok?
      ensures outcome.Pass? ==> locs == AssignNames(old(locs), rank, batch).value
      ensures outcome.Fail? ==> AssignNames(old(locs), rank, batch) == Err(outcome.error) && locs == old(locs)
    {
      var r := RecomputeNames(locs, rank, batch);
      if r.Err? {
        return Fail(r.error);
      }
      locs := r.value;
      return Pass;
    }

    /**
     * `_check_location_zone_unique_name` over the locations of `batch`: the
     * first location of the batch with a same-named location in the scope
     * of its zone makes the check fail.
     */
    method CheckLocationZoneUniqueName(batch: seq<LocId>) returns (outcome: Outcome<ValidationError>)
      requires Valid()
      requires forall i | 0 <= i < |batch| :: batch[i] in locs
      ensures outcome.Pass? <==> forall i | 0 <= i < |batch| :: !HasZoneDuplicate(locs, rank, batch[i])
      ensures outcome.Fail? ==> exists i | 0 <= i < |batch| ::
        && HasZoneDuplicate(locs, rank, batch[i])
        && outcome.error == DuplicateNameInZone(locs[batch[i]].name)
        && forall j | 0 <= j < i :: !HasZoneDuplicate(locs, rank, batch[j])
    {
      outcome := CheckZoneUniqueNames(locs, rank, batch);
    }
  }
}
