/**
 * `_check_location_zone_unique_name`: the zone of a location is the picking
 * zone of the nearest location, counting itself, that has one. Within the
 * locations lying at or below any location of that zone, no other location
 * may have the same name. A location without a zone is exempt.
 */
module ZoneUniqueName {
  import opened Wrappers
  import opened LocationTree

  /** The validation error the check raises. */
  datatype ValidationError = DuplicateNameInZone(name: string)

  predicate HasPickingZone(l: Location) {
    l.pickingZone.Some?
  }

  /** The zone of `id`: the picking zone of the nearest location with one, counting `id` itself. */
  function ZoneOf(locs: Locations, ghost rank: map<LocId, nat>, id: LocId): Option<ZoneId>
    requires Ranked(locs, rank) && id in locs
  {
    match Nearest(locs, rank, id, HasPickingZone)
    case None => None
    case Some(a) => locs[a].pickingZone
  }

  /** The walk of the check from the location up to the nearest location with a picking zone. */
  method ResolveZone(locs: Locations, ghost rank: map<LocId, nat>, id: LocId) returns (zone: Option<ZoneId>)
    requires Ranked(locs, rank) && id in locs
    ensures zone == ZoneOf(locs, rank, id)
    ensures zone.None? <==> NoneInChain(locs, Chain(locs, rank, id), HasPickingZone)
    ensures zone.Some? ==> exists k :: FirstInChain(locs, Chain(locs, rank, id), HasPickingZone, k)
                                    && locs[Chain(locs, rank, id)[k]].pickingZone == zone
  {
    var current := Some(id);
    zone := locs[id].pickingZone;
    while current.Some? && zone.None?
      invariant current.Some? ==> current.value in locs && zone == locs[current.value].pickingZone
      invariant current.Some? ==> Nearest(locs, rank, current.value, HasPickingZone) == Nearest(locs, rank, id, HasPickingZone)
      invariant current.None? ==> Nearest(locs, rank, id, HasPickingZone).None? && zone.None?
      decreases if current.Some? then rank[current.value] + 1 else 0
    {
      current := locs[current.value].parent;
      zone := if current.Some? then locs[current.value].pickingZone else None;
    }
    NearestIsFirstInChain(locs, rank, id, HasPickingZone);
  }

  /** `id` lies at or below a location whose picking zone is `zone` (the `child_of` search). */
  predicate InZoneScope(locs: Locations, ghost rank: map<LocId, nat>, id: LocId, zone: ZoneId)
    requires Ranked(locs, rank) && id in locs
  {
    exists a | a in locs && IsDescendantOrSelf(locs, rank, id, a) :: locs[a].pickingZone == Some(zone)
  }

  /** Another location of the same name lies in the scope of `id`'s zone: the check raises for `id`. */
  predicate HasZoneDuplicate(locs: Locations, ghost rank: map<LocId, nat>, id: LocId)
    requires Ranked(locs, rank) && id in locs
  {
    match ZoneOf(locs, rank, id)
    case None => false
    case Some(z) =>
      exists y | y in locs :: y != id && locs[y].name == locs[id].name && InZoneScope(locs, rank, y, z)
  }

  /**
   * The per-record body of `_check_location_zone_unique_name`: resolve the
   * zone, then search for another location of the same name under it.
   */
  method DetectZoneDuplicate(locs: Locations, ghost rank: map<LocId, nat>, id: LocId) returns (found: bool)
    requires Ranked(locs, rank) && id in locs
    ensures found == HasZoneDuplicate(locs, rank, id)
  {
    var zone := ResolveZone(locs, rank, id);
    if zone.None? {
      return false;
    }
    var sameName := set y | y in locs && y != id && locs[y].name == locs[id].name
                            && InZoneScope(locs, rank, y, zone.value);
    if sameName != {} {
      return true;
    }
    assert forall y | y in locs && y != id && locs[y].name == locs[id].name :: y !in sameName;
    NoCandidateNoDuplicate(locs, rank, id, zone.value);
    return false;
  }

  /**
   * `_check_location_zone_unique_name` over the locations of `batch`: the
   * first location of the batch with a same-named location in the scope
   * of its zone makes the check fail.
   */
  method CheckZoneUniqueNames(locs: Locations, ghost rank: map<LocId, nat>, batch: seq<LocId>)
    returns (outcome: Outcome<ValidationError>)
    requires Ranked(locs, rank)
    requires forall i | 0 <= i < |batch| :: batch[i] in locs
    ensures outcome.Pass? <==> forall i | 0 <= i < |batch| :: !HasZoneDuplicate(locs, rank, batch[i])
    ensures outcome.Fail? ==> exists i | 0 <= i < |batch| ::
      && HasZoneDuplicate(locs, rank, batch[i])
      && outcome.error == DuplicateNameInZone(locs[batch[i]].name)
      && forall j | 0 <= j < i :: !HasZoneDuplicate(locs, rank, batch[j])
  {
    for i := 0 to |batch|
      invariant forall j | 0 <= j < i :: !HasZoneDuplicate(locs, rank, batch[j])
    {
      var found := DetectZoneDuplicate(locs, rank, batch[i]);
      if found {
        return Fail(DuplicateNameInZone(locs[batch[i]].name));
      }
    }
    return Pass;
  }

  /** A location with no picking zone from itself to its root never raises, whatever the names. */
  lemma NoZoneIsExempt(locs: Locations, rank: map<LocId, nat>, id: LocId)
    requires Ranked(locs, rank) && id in locs
    requires NoneInChain(locs, Chain(locs, rank, id), HasPickingZone)
    ensures !HasZoneDuplicate(locs, rank, id)
  {
    NearestIsFirstInChain(locs, rank, id, HasPickingZone);
  }

  /**
   * `y` collides with `id`: position `k` of `id`'s chain is the first with
   * a picking zone, and `y` is another location of the same name lying at
   * or below some location with that same picking zone.
   */
  ghost predicate Collides(locs: Locations, rank: map<LocId, nat>, id: LocId, k: int, y: LocId)
    requires Ranked(locs, rank) && id in locs
  {
    && FirstInChain(locs, Chain(locs, rank, id), HasPickingZone, k)
    && y in locs && y != id && locs[y].name == locs[id].name
    && exists a | a in locs && IsDescendantOrSelf(locs, rank, y, a) :: locs[a].pickingZone == locs[Chain(locs, rank, id)[k]].pickingZone
  }

  /** The check raises for `id` exactly when some location collides with it. */
  lemma DuplicateCondition(locs: Locations, rank: map<LocId, nat>, id: LocId)
    requires Ranked(locs, rank) && id in locs
    ensures HasZoneDuplicate(locs, rank, id) <==> exists k, y :: Collides(locs, rank, id, k, y)
  {
    var c := Chain(locs, rank, id);
    NearestIsFirstInChain(locs, rank, id, HasPickingZone);
    if HasZoneDuplicate(locs, rank, id) {
      var z := ZoneOf(locs, rank, id).value;
      var k :| FirstInChain(locs, c, HasPickingZone, k) && c[k] == Nearest(locs, rank, id, HasPickingZone).value;
      var y :| y in locs && y != id && locs[y].name == locs[id].name && InZoneScope(locs, rank, y, z);
      assert Collides(locs, rank, id, k, y);
    } else if k, y :| Collides(locs, rank, id, k, y) {
      FirstInChainIsNearest(locs, rank, id, HasPickingZone, k);
      assert false;
    }
  }

  /** A location lies in the scope of its own zone; the check excludes it only by its id. */
  lemma ZoneScopeHoldsSelf(locs: Locations, rank: map<LocId, nat>, id: LocId)
    requires Ranked(locs, rank) && id in locs && ZoneOf(locs, rank, id).Some?
    ensures InZoneScope(locs, rank, id, ZoneOf(locs, rank, id).value)
  {
    NearestIsFirstInChain(locs, rank, id, HasPickingZone);
  }

  /** Two distinct locations of the same name that resolve to the same zone both make the check raise. */
  lemma SameZoneSameNameCollide(locs: Locations, rank: map<LocId, nat>, x: LocId, y: LocId)
    requires Ranked(locs, rank) && x in locs && y in locs && x != y
    requires locs[x].name == locs[y].name
    requires ZoneOf(locs, rank, x).Some? && ZoneOf(locs, rank, x) == ZoneOf(locs, rank, y)
    ensures HasZoneDuplicate(locs, rank, x) && HasZoneDuplicate(locs, rank, y)
  {
    ZoneScopeHoldsSelf(locs, rank, x);
    ZoneScopeHoldsSelf(locs, rank, y);
  }

  /** No other same-named location in the zone's scope: no duplicate. */
  lemma NoCandidateNoDuplicate(locs: Locations, rank: map<LocId, nat>, id: LocId, z: ZoneId)
    requires Ranked(locs, rank) && id in locs && ZoneOf(locs, rank, id) == Some(z)
    requires forall y | y in locs && y != id && locs[y].name == locs[id].name :: !InZoneScope(locs, rank, y, z)
    ensures !HasZoneDuplicate(locs, rank, id)
  {
  }
}
