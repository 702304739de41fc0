/**
 * The tree of stock locations: each location has at most one parent
 * (`location_id`), and the walks of the location model go from a location up
 * to the root looking for the nearest location with some property.
 */
module LocationTree {
  import opened Wrappers

  type LocId = nat
  type ZoneId = nat

  /** The `kind` selection; `Unset` is the empty selection. */
  datatype Kind = Unset | Zone | Area | Bin

  /**
   * One stock location. Unset character fields are the empty string;
   * `nameFormat` and `pickingZone` may be absent.
   */
  datatype Location = Location(
    parent: Option<LocId>,
    kind: Kind,
    name: string,
    area: string,
    corridor: string,
    row: string,
    rack: string,
    level: string,
    posx: int,
    posy: int,
    posz: int,
    nameFormat: Option<string>,
    pickingZone: Option<ZoneId>)

  type Locations = map<LocId, Location>

  /**
   * The parent relation is a forest over `locs`: every parent is a known
   * location and `rank` strictly decreases from a location to its parent,
   * so that every walk toward the root ends.
   */
  ghost predicate Ranked(locs: Locations, rank: map<LocId, nat>) {
    && locs.Keys <= rank.Keys
    && forall id | id in locs && locs[id].parent.Some? ::
         locs[id].parent.value in locs && rank[locs[id].parent.value] < rank[id]
  }

  /** `locs` and `locs'` hold the same locations with the same parents. */
  ghost predicate SameShape(locs: Locations, locs': Locations) {
    && locs.Keys == locs'.Keys
    && forall id | id in locs :: locs'[id].parent == locs[id].parent
  }

  lemma SameShapeRanked(locs: Locations, locs': Locations, rank: map<LocId, nat>)
    requires Ranked(locs, rank) && SameShape(locs, locs')
    ensures Ranked(locs', rank)
  {
  }

  /**
   * The path from `id` up to its root: `id` first, then its parent, and so
   * on, ending with a location that has no parent.
   */
  function Chain(locs: Locations, ghost rank: map<LocId, nat>, id: LocId): (c: seq<LocId>)
    requires Ranked(locs, rank) && id in locs
    ensures |c| >= 1 && c[0] == id
    ensures forall j | 0 <= j < |c| :: c[j] in locs
    ensures forall a | a in c :: a in locs
    ensures forall j | 0 <= j < |c| - 1 :: locs[c[j]].parent == Some(c[j + 1])
    ensures locs[c[|c| - 1]].parent.None?
    decreases rank[id]
  {
    match locs[id].parent
    case None => [id]
    case Some(p) => [id] + Chain(locs, rank, p)
  }

  /** `id` is `ancestor` or lies below it (the `child_of` relation). */
  predicate IsDescendantOrSelf(locs: Locations, ghost rank: map<LocId, nat>, id: LocId, ancestor: LocId)
    requires Ranked(locs, rank) && id in locs
  {
    ancestor in Chain(locs, rank, id)
  }

  /**
   * The nearest location, counting `id` itself, on the way from `id` to
   * its root that satisfies `p`; `None` when there is none.
   */
  function Nearest(locs: Locations, ghost rank: map<LocId, nat>, id: LocId, p: Location -> bool): (r: Option<LocId>)
    requires Ranked(locs, rank) && id in locs
    ensures r.Some? ==> r.value in locs && p(locs[r.value])
    decreases rank[id]
  {
    if p(locs[id]) then Some(id)
    else match locs[id].parent
      case None => None
      case Some(q) => Nearest(locs, rank, q, p)
  }

  /** `k` is the first position of the chain `c` whose location satisfies `p`. */
  ghost predicate FirstInChain(locs: Locations, c: seq<LocId>, p: Location -> bool, k: int)
    requires forall j | 0 <= j < |c| :: c[j] in locs
  {
    && 0 <= k < |c|
    && p(locs[c[k]])
    && forall j | 0 <= j < k :: !p(locs[c[j]])
  }

  /** No location of the chain `c` satisfies `p`. */
  ghost predicate NoneInChain(locs: Locations, c: seq<LocId>, p: Location -> bool)
    requires forall j | 0 <= j < |c| :: c[j] in locs
  {
    forall j | 0 <= j < |c| :: !p(locs[c[j]])
  }

  /** `Nearest` finds exactly the first location of the chain that satisfies `p`. */
  lemma {:induction false} NearestIsFirstInChain(locs: Locations, rank: map<LocId, nat>, id: LocId, p: Location -> bool)
    requires Ranked(locs, rank) && id in locs
    ensures Nearest(locs, rank, id, p).None? ==> NoneInChain(locs, Chain(locs, rank, id), p)
    ensures Nearest(locs, rank, id, p).Some? ==>
      exists k :: FirstInChain(locs, Chain(locs, rank, id), p, k) && Chain(locs, rank, id)[k] == Nearest(locs, rank, id, p).value
    decreases rank[id]
  {
    var c := Chain(locs, rank, id);
    if p(locs[id]) {
      assert FirstInChain(locs, c, p, 0) && c[0] == id;
    } else {
      match locs[id].parent
      case None =>
      case Some(q) =>
        NearestIsFirstInChain(locs, rank, q, p);
        var c' := Chain(locs, rank, q);
        assert c == [id] + c';
        match Nearest(locs, rank, q, p)
        case None =>
          NoneInChainCons(locs, id, c', p);
        case Some(o) =>
          var k :| FirstInChain(locs, c', p, k) && c'[k] == o;
          FirstInChainCons(locs, id, c', p, k);
    }
  }

  lemma NoneInChainCons(locs: Locations, id: LocId, c: seq<LocId>, p: Location -> bool)
    requires id in locs && forall j | 0 <= j < |c| :: c[j] in locs
    requires !p(locs[id]) && NoneInChain(locs, c, p)
    ensures NoneInChain(locs, [id] + c, p)
  {
    assert forall j | 0 < j < |[id] + c| :: ([id] + c)[j] == c[j - 1];
  }

  lemma FirstInChainCons(locs: Locations, id: LocId, c: seq<LocId>, p: Location -> bool, k: int)
    requires id in locs && forall j | 0 <= j < |c| :: c[j] in locs
    requires !p(locs[id]) && FirstInChain(locs, c, p, k)
    ensures FirstInChain(locs, [id] + c, p, k + 1) && ([id] + c)[k + 1] == c[k]
  {
    assert forall j | 0 < j < |[id] + c| :: ([id] + c)[j] == c[j - 1];
  }

  /** Conversely, the first location of the chain that satisfies `p` is the one `Nearest` finds. */
  lemma FirstInChainIsNearest(locs: Locations, rank: map<LocId, nat>, id: LocId, p: Location -> bool, k: int)
    requires Ranked(locs, rank) && id in locs
    requires FirstInChain(locs, Chain(locs, rank, id), p, k)
    ensures Nearest(locs, rank, id, p) == Some(Chain(locs, rank, id)[k])
  {
    NearestIsFirstInChain(locs, rank, id, p);
    var c := Chain(locs, rank, id);
    if o :| Nearest(locs, rank, id, p) == Some(o) {
      var k' :| FirstInChain(locs, c, p, k') && c[k'] == o;
      assert k' == k;
    }
  }

  /** Ranks strictly decrease along a chain. */
  lemma {:induction false} ChainRanks(locs: Locations, rank: map<LocId, nat>, id: LocId)
    requires Ranked(locs, rank) && id in locs
    ensures var c := Chain(locs, rank, id);
      forall j | 0 < j < |c| :: rank[c[j]] < rank[id]
    decreases rank[id]
  {
    match locs[id].parent
    case None =>
    case Some(q) =>
      ChainRanks(locs, rank, q);
      assert Chain(locs, rank, id) == [id] + Chain(locs, rank, q);
  }

  /**
   * The nearest location satisfying `p` depends only on the parents and on
   * `p` of each location: two trees that agree on both agree on `Nearest`.
   */
  lemma {:induction false} NearestAgrees(locs: Locations, locs': Locations, rank: map<LocId, nat>, id: LocId, p: Location -> bool)
    requires Ranked(locs, rank) && SameShape(locs, locs') && id in locs
    requires forall x | x in locs :: p(locs'[x]) == p(locs[x])
    ensures Ranked(locs', rank)
    ensures Nearest(locs', rank, id, p) == Nearest(locs, rank, id, p)
    decreases rank[id]
  {
    SameShapeRanked(locs, locs', rank);
    match locs[id].parent
    case None =>
    case Some(q) => NearestAgrees(locs, locs', rank, q, p);
  }

  /**
   * Replacing a location `a` that lies strictly above the nearest match `o`
   * (keeping its parent) does not change the nearest match.
   */
  lemma {:induction false} NearestIgnoresAbove(locs: Locations, rank: map<LocId, nat>, id: LocId, p: Location -> bool, o: LocId, a: LocId, l: Location)
    requires Ranked(locs, rank) && id in locs && o in locs
    requires Nearest(locs, rank, id, p) == Some(o)
    requires a in Chain(locs, rank, o) && a != o
    requires l.parent == locs[a].parent
    ensures Ranked(locs[a := l], rank)
    ensures Nearest(locs[a := l], rank, id, p) == Some(o)
    decreases rank[id]
  {
    var locs' := locs[a := l];
    assert SameShape(locs, locs');
    SameShapeRanked(locs, locs', rank);
    ChainRanks(locs, rank, o);
    NearestRankBound(locs, rank, id, p);
    assert a != id;
    if !p(locs[id]) {
      NearestIgnoresAbove(locs, rank, locs[id].parent.value, p, o, a, l);
    }
  }

  /**
   * The nearest match lies on the chain from the start of the walk to its
   * root, so at or above the start, and never has a higher rank than it.
   */
  lemma {:induction false} NearestRankBound(locs: Locations, rank: map<LocId, nat>, id: LocId, p: Location -> bool)
    requires Ranked(locs, rank) && id in locs
    requires Nearest(locs, rank, id, p).Some?
    ensures Nearest(locs, rank, id, p).value in Chain(locs, rank, id)
    ensures rank[Nearest(locs, rank, id, p).value] <= rank[id]
    decreases rank[id]
  {
    if !p(locs[id]) {
      var q := locs[id].parent.value;
      NearestRankBound(locs, rank, q, p);
      assert Chain(locs, rank, id) == [id] + Chain(locs, rank, q);
    }
  }
}
