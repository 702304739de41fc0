/**
 * `_compute_name`: a bin takes as its name the nearest name format found
 * on the way from the bin up to its root, rendered with the bin's own
 * field values. Other locations, and bins without any format above them,
 * keep their name.
 */
module LocationNaming {
  import opened Wrappers
  import opened LocationTree
  import opened NameFormat

  /** A location that carries a non-empty name format. */
  predicate HasNameFormat(l: Location) {
    l.nameFormat.Some? && l.nameFormat.value != ""
  }

  /** The flat field-name to text snapshot of a location that a template is rendered against. */
  function Snapshot(l: Location): map<string, string> {
    map[
      "name" := l.name, "area" := l.area,
      "corridor" := l.corridor, "row" := l.row, "rack" := l.rack, "level" := l.level,
      "posx" := IntToDecimal(l.posx), "posy" := IntToDecimal(l.posy), "posz" := IntToDecimal(l.posz)]
  }

  /** The walk of `_compute_name` from the location up to the nearest location with a name format. */
  method FindFormatOwner(locs: Locations, ghost rank: map<LocId, nat>, id: LocId) returns (owner: Option<LocId>)
    requires Ranked(locs, rank) && id in locs
    ensures owner == Nearest(locs, rank, id, HasNameFormat)
  {
    var cursor := Some(id);
    while cursor.Some? && !HasNameFormat(locs[cursor.value])
      invariant cursor.Some? ==> cursor.value in locs
      invariant cursor.Some? ==> Nearest(locs, rank, cursor.value, HasNameFormat) == Nearest(locs, rank, id, HasNameFormat)
      invariant cursor.None? ==> Nearest(locs, rank, id, HasNameFormat).None?
      decreases if cursor.Some? then rank[cursor.value] + 1 else 0
    {
      cursor := locs[cursor.value].parent;
    }
    owner := cursor;
  }

  /** The name `_compute_name` gives location `id`, or the error rendering raises. */
  function BinName(locs: Locations, ghost rank: map<LocId, nat>, id: LocId): Result<string, RenderError>
    requires Ranked(locs, rank) && id in locs
  {
    if locs[id].kind != Bin then Ok(locs[id].name)
    else match Nearest(locs, rank, id, HasNameFormat)
      case None => Ok(locs[id].name)
      case Some(o) => Render(locs[o].nameFormat.value, Snapshot(locs[id]))
  }

  /**
   * The per-record body of `_compute_name`: a location that is not a bin,
   * or a bin with no name format above it, keeps its name; otherwise the
   * nearest format is rendered against the bin's fields.
   */
  method ComputeBinName(locs: Locations, ghost rank: map<LocId, nat>, id: LocId) returns (r: Result<string, RenderError>)
    requires Ranked(locs, rank) && id in locs
    ensures r == BinName(locs, rank, id)
  {
    if locs[id].kind != Bin {
      return Ok(locs[id].name);
    }
    var owner := FindFormatOwner(locs, rank, id);
    if owner.None? {
      return Ok(locs[id].name);
    }
    r := Render(locs[owner.value].nameFormat.value, Snapshot(locs[id]));
  }

  /** `locs'` differs from `locs` in names at most. */
  ghost predicate SameExceptName(locs: Locations, locs': Locations) {
    && locs.Keys == locs'.Keys
    && forall id | id in locs :: locs'[id] == locs[id].(name := locs'[id].name)
  }

  /**
   * The locations after `_compute_name` has run over `batch` in order, or
   * the first rendering error, which aborts the run.
   */
  function AssignNames(locs: Locations, ghost rank: map<LocId, nat>, batch: seq<LocId>): (r: Result<Locations, RenderError>)
    requires Ranked(locs, rank)
    requires forall i | 0 <= i < |batch| :: batch[i] in locs
    ensures r.Ok? ==> SameExceptName(locs, r.value) && Ranked(r.value, rank)
  {
    if batch == [] then Ok(locs)
    else match AssignNames(locs, rank, batch[..|batch| - 1])
      case Err(e) => Err(e)
      case Ok(m) =>
        var x := batch[|batch| - 1];
        match BinName(m, rank, x)
        case Err(e) => Err(e)
        case Ok(n) =>
          var m' := m[x := m[x].(name := n)];
          assert SameShape(m, m');
          SameShapeRanked(m, m', rank);
          Ok(m')
  }

  /**
   * The loop of `_compute_name`: each location of `batch` in turn; the
   * first rendering error ends the run.
   */
  method RecomputeNames(locs: Locations, ghost rank: map<LocId, nat>, batch: seq<LocId>) returns (r: Result<Locations, RenderError>)
    requires Ranked(locs, rank)
    requires forall i | 0 <= i < |batch| :: batch[i] in locs
    ensures r == AssignNames(locs, rank, batch)
  {
    var m := locs;
    for i := 0 to |batch|
      invariant AssignNames(locs, rank, batch[..i]) == Ok(m)
    {
      AssignNamesStep(locs, rank, batch, i, m);
      var id := batch[i];
      var rendered := ComputeBinName(m, rank, id);
      if rendered.Err? {
        AssignNamesFailurePersists(locs, rank, batch, i + 1);
        return Err(rendered.error);
      }
      m := m[id := m[id].(name := rendered.value)];
    }
    assert batch[..|batch|] == batch;
    return Ok(m);
  }

  /**
   * A location that is not a bin, or a bin with no name format anywhere
   * from itself to its root, keeps its name.
   */
  lemma NameKeptWithoutTemplate(locs: Locations, rank: map<LocId, nat>, id: LocId)
    requires Ranked(locs, rank) && id in locs
    requires locs[id].kind != Bin || NoneInChain(locs, Chain(locs, rank, id), HasNameFormat)
    ensures BinName(locs, rank, id) == Ok(locs[id].name)
  {
    NearestIsFirstInChain(locs, rank, id, HasNameFormat);
  }

  /**
   * Only a bin with a name format on its chain can get a new name or fail
   * to render; every other location keeps its name.
   */
  lemma OnlyTemplatedBinsChange(locs: Locations, rank: map<LocId, nat>, id: LocId)
    requires Ranked(locs, rank) && id in locs
    requires BinName(locs, rank, id) != Ok(locs[id].name)
    ensures locs[id].kind == Bin
    ensures exists k :: FirstInChain(locs, Chain(locs, rank, id), HasNameFormat, k)
  {
    NearestIsFirstInChain(locs, rank, id, HasNameFormat);
  }

  /**
   * A bin is named by the format of the first location, counting itself,
   * on its chain that has one, rendered with the bin's own snapshot.
   */
  lemma BinUsesNearestTemplate(locs: Locations, rank: map<LocId, nat>, id: LocId, k: nat)
    requires Ranked(locs, rank) && id in locs && locs[id].kind == Bin
    requires FirstInChain(locs, Chain(locs, rank, id), HasNameFormat, k)
    ensures BinName(locs, rank, id)
         == Render(locs[Chain(locs, rank, id)[k]].nameFormat.value, Snapshot(locs[id]))
  {
    FirstInChainIsNearest(locs, rank, id, HasNameFormat, k);
  }

  /**
   * Rendering reads only the bin's own values: replacing any other
   * location by one with the same parent and name format leaves the bin's
   * new name unchanged.
   */
  lemma BinNameIgnoresOtherLocations(locs: Locations, rank: map<LocId, nat>, id: LocId, y: LocId, l: Location)
    requires Ranked(locs, rank) && id in locs && y in locs && y != id
    requires l.parent == locs[y].parent && l.nameFormat == locs[y].nameFormat
    ensures Ranked(locs[y := l], rank)
    ensures BinName(locs[y := l], rank, id) == BinName(locs, rank, id)
  {
    var locs' := locs[y := l];
    assert SameShape(locs, locs');
    NearestAgrees(locs, locs', rank, id, HasNameFormat);
  }

  /**
   * Formats above the nearest one are ignored: changing the name format of
   * a location strictly above the one in use leaves the bin's name unchanged.
   */
  lemma BinNameIgnoresFartherTemplates(locs: Locations, rank: map<LocId, nat>, id: LocId, o: LocId, a: LocId, format: Option<string>)
    requires Ranked(locs, rank) && id in locs && o in locs
    requires Nearest(locs, rank, id, HasNameFormat) == Some(o)
    requires a in Chain(locs, rank, o) && a != o
    ensures Ranked(locs[a := locs[a].(nameFormat := format)], rank)
    ensures BinName(locs[a := locs[a].(nameFormat := format)], rank, id) == BinName(locs, rank, id)
  {
    NearestIgnoresAbove(locs, rank, id, HasNameFormat, o, a, locs[a].(nameFormat := format));
    ChainRanks(locs, rank, o);
    NearestRankBound(locs, rank, id, HasNameFormat);
    assert a != id;
  }

  /**
   * Renaming is stable when the format in use does not read `{name}`: a
   * location that has been given its new name gets the same name again.
   */
  lemma RenameIsStable(locs: Locations, rank: map<LocId, nat>, id: LocId, n: string)
    requires Ranked(locs, rank) && id in locs
    requires Nearest(locs, rank, id, HasNameFormat).Some? ==>
      "name" !in FieldsUsed(locs[Nearest(locs, rank, id, HasNameFormat).value].nameFormat.value)
    requires BinName(locs, rank, id) == Ok(n)
    ensures Ranked(locs[id := locs[id].(name := n)], rank)
    ensures BinName(locs[id := locs[id].(name := n)], rank, id) == Ok(n)
  {
    var locs' := locs[id := locs[id].(name := n)];
    assert SameShape(locs, locs');
    NearestAgrees(locs, locs', rank, id, HasNameFormat);
    if locs[id].kind == Bin && Nearest(locs, rank, id, HasNameFormat).Some? {
      var o := Nearest(locs, rank, id, HasNameFormat).value;
      SnapshotOfRenamed(locs[id], n);
      RenderIgnoresUnusedField(locs[o].nameFormat.value, Snapshot(locs[id]), "name", n);
    }
  }

  /**
   * A format that reads `{name}` is not stable: with `{name}` followed by
   * plain text, each run appends that text to the name once more.
   */
  lemma RenameRepeatsWithName(locs: Locations, rank: map<LocId, nat>, id: LocId, o: LocId, suffix: string)
    requires Ranked(locs, rank) && id in locs && locs[id].kind == Bin
    requires Nearest(locs, rank, id, HasNameFormat) == Some(o)
    requires locs[o].nameFormat == Some("{name}" + suffix)
    requires forall i | 0 <= i < |suffix| :: suffix[i] != '{' && suffix[i] != '}'
    ensures BinName(locs, rank, id) == Ok(locs[id].name + suffix)
    ensures Ranked(locs[id := locs[id].(name := locs[id].name + suffix)], rank)
    ensures BinName(locs[id := locs[id].(name := locs[id].name + suffix)], rank, id)
         == Ok(locs[id].name + suffix + suffix)
  {
    var n := locs[id].name + suffix;
    var locs' := locs[id := locs[id].(name := n)];
    assert SameShape(locs, locs');
    NearestAgrees(locs, locs', rank, id, HasNameFormat);
    RenderNameThenText(suffix, Snapshot(locs[id]));
    RenderNameThenText(suffix, Snapshot(locs'[id]));
  }

  lemma SnapshotOfRenamed(l: Location, n: string)
    ensures Snapshot(l.(name := n)) == Snapshot(l)["name" := n]
  {
  }

  /** The new name of `x` when `x` is renamed: the rendered name, or the current one when rendering fails. */
  function RenamedTo(locs: Locations, ghost rank: map<LocId, nat>, x: LocId): string
    requires Ranked(locs, rank) && x in locs
  {
    match BinName(locs, rank, x)
    case Ok(n) => n
    case Err(_) => locs[x].name
  }

  /**
   * Over a batch of distinct locations the run does not depend on the
   * order: it succeeds exactly when every location of the batch renders,
   * and then each location of the batch has the name `BinName` gives it in
   * the initial state while all else stays as it was.
   */
  lemma {:induction false} AssignNamesIndependent(locs: Locations, rank: map<LocId, nat>, batch: seq<LocId>)
    requires Ranked(locs, rank)
    requires forall i | 0 <= i < |batch| :: batch[i] in locs
    requires forall i, j | 0 <= i < j < |batch| :: batch[i] != batch[j]
    ensures AssignNames(locs, rank, batch).Ok? <==> forall i | 0 <= i < |batch| :: BinName(locs, rank, batch[i]).Ok?
    ensures AssignNames(locs, rank, batch).Ok? ==> RenamedBatch(locs, rank, batch, AssignNames(locs, rank, batch).value)
  {
    if batch != [] {
      var n := |batch| - 1;
      var prefix, x := batch[..n], batch[n];
      assert forall i | 0 <= i < n :: prefix[i] == batch[i];
      assert x !in prefix;
      AssignNamesIndependent(locs, rank, prefix);
      match AssignNames(locs, rank, prefix)
      case Err(e) =>
        AssignNamesFailurePersists(locs, rank, batch, n);
        var i :| 0 <= i < n && !BinName(locs, rank, prefix[i]).Ok?;
        assert !BinName(locs, rank, batch[i]).Ok?;
      case Ok(m) =>
        AssignNamesIndependentStep(locs, rank, batch, m);
        AllRenderSnoc(locs, rank, batch, prefix);
    }
  }

  lemma AllRenderSnoc(locs: Locations, rank: map<LocId, nat>, batch: seq<LocId>, prefix: seq<LocId>)
    requires Ranked(locs, rank) && batch != [] && prefix == batch[..|batch| - 1]
    requires forall i | 0 <= i < |batch| :: batch[i] in locs
    ensures (forall i | 0 <= i < |batch| :: BinName(locs, rank, batch[i]).Ok?)
        <==> (forall i | 0 <= i < |prefix| :: BinName(locs, rank, prefix[i]).Ok?) && BinName(locs, rank, batch[|batch| - 1]).Ok?
  {
    assert forall i | 0 <= i < |prefix| :: prefix[i] == batch[i];
  }

  /** The last step of `AssignNamesIndependent`: the prefix has run and renamed its locations into `m`. */
  lemma AssignNamesIndependentStep(locs: Locations, rank: map<LocId, nat>, batch: seq<LocId>, m: Locations)
    requires Ranked(locs, rank) && batch != []
    requires forall i | 0 <= i < |batch| :: batch[i] in locs
    requires batch[|batch| - 1] !in batch[..|batch| - 1]
    requires AssignNames(locs, rank, batch[..|batch| - 1]) == Ok(m)
    requires RenamedBatch(locs, rank, batch[..|batch| - 1], m)
    ensures AssignNames(locs, rank, batch).Ok? <==> BinName(locs, rank, batch[|batch| - 1]).Ok?
    ensures AssignNames(locs, rank, batch).Ok? ==> RenamedBatch(locs, rank, batch, AssignNames(locs, rank, batch).value)
  {
    var n := |batch| - 1;
    var prefix, x := batch[..n], batch[n];
    AssignNamesStep(locs, rank, batch, n, m);
    assert batch[..n + 1] == batch;
    assert m[x] == locs[x];
    BinNameAfterOtherRenames(locs, m, rank, x);
    if BinName(locs, rank, x).Ok? {
      var m' := m[x := m[x].(name := BinName(locs, rank, x).value)];
      assert AssignNames(locs, rank, batch) == Ok(m');
      RenameStepKeepsBatch(locs, m, rank, batch);
    } else {
      assert AssignNames(locs, rank, batch).Err?;
    }
  }

  /** Every location of `batch` has its rendered name in `m`, and every other location is unchanged. */
  ghost predicate RenamedBatch(locs: Locations, rank: map<LocId, nat>, batch: seq<LocId>, m: Locations)
    requires Ranked(locs, rank)
  {
    && m.Keys == locs.Keys
    && forall y | y in locs :: m[y] == if y in batch then locs[y].(name := RenamedTo(locs, rank, y)) else locs[y]
  }

  lemma RenameStepKeepsBatch(locs: Locations, m: Locations, rank: map<LocId, nat>, batch: seq<LocId>)
    requires Ranked(locs, rank) && batch != [] && batch[|batch| - 1] in locs
    requires RenamedBatch(locs, rank, batch[..|batch| - 1], m)
    requires BinName(locs, rank, batch[|batch| - 1]).Ok?
    ensures var x := batch[|batch| - 1];
      RenamedBatch(locs, rank, batch, m[x := m[x].(name := BinName(locs, rank, x).value)])
  {
    var n := |batch| - 1;
    var x := batch[n];
    var m' := m[x := m[x].(name := BinName(locs, rank, x).value)];
    forall y | y in locs
      ensures m'[y] == if y in batch then locs[y].(name := RenamedTo(locs, rank, y)) else locs[y]
    {
      assert y in batch <==> y in batch[..n] || y == x by {
        assert batch == batch[..n] + [x];
      }
    }
  }

  /**
   * Renaming other locations does not change what a location is renamed
   * to: in any state that differs from the initial one in names only and
   * keeps `x` as it was, `x` renders as it did initially.
   */
  lemma BinNameAfterOtherRenames(locs: Locations, m: Locations, rank: map<LocId, nat>, x: LocId)
    requires Ranked(locs, rank) && Ranked(m, rank) && x in locs
    requires SameExceptName(locs, m) && m[x] == locs[x]
    ensures BinName(m, rank, x) == BinName(locs, rank, x)
  {
    assert SameShape(locs, m);
    NearestAgrees(locs, m, rank, x, HasNameFormat);
  }

  /** Once a run has failed on a prefix of the batch, the whole run fails with the same error. */
  lemma {:induction false} AssignNamesFailurePersists(locs: Locations, rank: map<LocId, nat>, batch: seq<LocId>, k: nat)
    requires Ranked(locs, rank)
    requires forall i | 0 <= i < |batch| :: batch[i] in locs
    requires k <= |batch| && AssignNames(locs, rank, batch[..k]).Err?
    ensures AssignNames(locs, rank, batch) == AssignNames(locs, rank, batch[..k])
    decreases |batch|
  {
    if k < |batch| {
      var prefix := batch[..|batch| - 1];
      assert prefix[..k] == batch[..k];
      AssignNamesFailurePersists(locs, rank, prefix, k);
    } else {
      assert batch[..k] == batch;
    }
  }

  /** One more location of the batch: the run on `batch[..i + 1]` continues the run on `batch[..i]`. */
  lemma AssignNamesStep(locs: Locations, rank: map<LocId, nat>, batch: seq<LocId>, i: nat, m: Locations)
    requires Ranked(locs, rank)
    requires forall j | 0 <= j < |batch| :: batch[j] in locs
    requires i < |batch| && AssignNames(locs, rank, batch[..i]) == Ok(m)
    ensures Ranked(m, rank) && batch[i] in m
    ensures AssignNames(locs, rank, batch[..i + 1])
         == match BinName(m, rank, batch[i])
            case Err(e) => Err(e)
            case Ok(n) => Ok(m[batch[i] := m[batch[i]].(name := n)])
  {
    assert batch[..i + 1][..i] == batch[..i];
  }
}
