# Stock location zones, areas and bin names

This project models the location logic of the `stock_location_zone` module. That module extends the warehouse's `stock.location` records. Each location has:

- a parent (`location_id`);
- a `kind`: picking zone, area, bin or unset;
- positional fields: `corridor`, `row`, `rack`, `level`, `posx`, `posy`, `posz`;
- an optional `location_name_format`;
- an optional `picking_zone_id`.

On top of these records the module does four things:

- **Area resolution** (`_compute_area`). A location of kind `area` takes its own name as its area. Every other location copies its parent's area.
- **Bin naming** (`_compute_name`). A bin walks up from itself to the nearest location that has a name format. It then renders that format, a Python `str.format` template such as `{area}-{corridor:0>2}.{rack:0>3}.{level:0>2}`, with its own field values, and the result becomes its name.
- **Zone-scoped unique names** (`_check_location_zone_unique_name`). A location's zone is the picking zone of the nearest location, counting itself, that has one. No other location at or below any location of that zone may have the same name.
- **Copy defaults** (`copy`). A duplicated location is named `"<name> (copy)"` unless the caller supplies a name.

## How the model is built

- **Location tree** (`location_tree.dfy`). The stored locations are a map from id to a `Location` value. A ghost `rank` decreases strictly from each location to its parent. The code assumes the parent relation has no cycle, and the rank states that assumption.
  - `Chain` is the path from a location to its root.
  - `Nearest` is the first location on that path satisfying a property. It is the specification of all three upward walks.
- **Area resolution** (`area.dfy`). `AssignAreas` is the recompute loop over a batch of records, written as a left fold. Each step reads the areas written by the steps before it.
- **Bin naming** (`naming.dfy`). `AssignNames` is the naming loop. Its first rendering error aborts the run.
- **Template rendering** (`name_format.dfy`). `Render` interprets the subset of `str.format` that name formats use:
  - literal text;
  - `{{` and `}}` for single braces;
  - `{field}`;
  - `{field:0>N}`, the field zero-padded on the left to width N.

  `Substitute` over parsed `Piece`s is an independent reference meaning. `RenderUnparse` proves that the two agree.
- **Zone check** (`zone_check.dfy`). `HasZoneDuplicate` is the condition under which the check raises.
- **Copy defaults** (`copy_name.dfy`). `CopyDefaults` computes the defaults handed to the duplication.
- **Record set** (`stock_location.dfy`). `LocationTable` is the record set as a class whose `locs` field the compute methods reassign. Its methods delegate to the loops above:
  - `RecomputeAreas`;
  - `RecomputeNames` with `ComputeBinName` and `FindFormatOwner`;
  - `CheckZoneUniqueNames` with `DetectZoneDuplicate` and `ResolveZone`.

  Each of those loops is proved equal to its specification function.

Three consequences of the code are worth stating, because a reader might expect otherwise:

- **Renaming is not idempotent for formats that read `{name}`.** With `{name}-x`, every run appends `-x` once more: a bin named `B` becomes `B-x`, then `B-x-x`. `RenameRepeatsWithName` proves this. For a format that does not read `{name}`, a second run gives the same name again, which `RenameIsStable` proves.
- **A copy can still collide.** `copy` only appends ` (copy)` to the name. If a location with that name already exists in the same zone, the unique-name check rejects the copy like any other duplicate.
- **A root has no area.** A location without a parent and not of kind `area` reads the area of an empty parent record, which is `False`. The model writes the empty string.

## Model

| member | source | states |
|---|---|---|
| LocationTree.Chain | stock_location_zone/models/stock_location.py:65-67 | the path the walks follow: it starts at the location, every later element is the parent of the one before, and it ends at a location without a parent |
| LocationTree.Nearest | stock_location_zone/models/stock_location.py:65-67 | the location an upward walk stops at satisfies the property the walk looks for |
| LocationTree.IsDescendantOrSelf | stock_location_zone/models/stock_location.py:103 | the `child_of` relation: a location is at or below an ancestor when the ancestor is on its chain |
| LocationTree.NearestIsFirstInChain | stock_location_zone/models/stock_location.py:65-67 | the walk stops at the first location of the chain, counting the start, with the property; it finds nothing only when no location of the chain has it |
| LocationTree.FirstInChainIsNearest | stock_location_zone/models/stock_location.py:65-67 | conversely, the first location of the chain with the property is the one the walk finds |
| LocationTree.ChainRanks | stock_location_zone/models/stock_location.py:66-67 | every step toward the root lowers the rank, so the walks end |
| LocationTree.NearestAgrees | stock_location_zone/models/stock_location.py:65-67 | the walk's result depends only on the parents and on the tested property of each location |
| LocationTree.NearestIgnoresAbove | stock_location_zone/models/stock_location.py:65-67 | locations above the one the walk stops at are never looked at |
| LocationTree.NearestRankBound | stock_location_zone/models/stock_location.py:65-67 | the location the walk stops at lies on the chain from the start to its root, and its rank is at most the start's |
| LocationTree.SameShapeRanked | stock_location_zone/models/stock_location.py:37-41 | changing fields other than the parent keeps the tree acyclic |
| LocationArea.AreaRule | stock_location_zone/models/stock_location.py:38-41 | the area one step of the loop writes: the own name for kind `area`, otherwise the parent's stored area, or empty at a root |
| LocationArea.AssignArea | stock_location_zone/models/stock_location.py:37-41 | one step of the loop: only the area of that location changes |
| LocationArea.AssignAreas | stock_location_zone/models/stock_location.py:35-41 | the recompute changes areas only, and only of the locations it runs over |
| LocationArea.RecomputeAreas | stock_location_zone/models/stock_location.py:37-41 | the loop over the records leaves the locations its specification fold gives |
| LocationArea.AreaKindTakesOwnName | stock_location_zone/models/stock_location.py:38-39 | after the recompute, every location of kind `area` in the batch has its own name as area |
| LocationArea.AreaHoldsAfterOtherStep | stock_location_zone/models/stock_location.py:40-41 | assigning one location's area keeps the rule true at every location that is not its child |
| LocationArea.AreaHoldsAfterOwnStep | stock_location_zone/models/stock_location.py:37-41 | assigning a location's area makes the rule hold at that location |
| LocationArea.AssignAreasParentFirst | stock_location_zone/models/stock_location.py:37-41 | over distinct locations with parents before children, every location of the batch ends with its own name if of kind `area`, otherwise its parent's area, or empty at a root |
| LocationArea.StepKeepsAreas | stock_location_zone/models/stock_location.py:37-41 | the last record of the loop keeps the rule true for all earlier records and makes it true for itself |
| LocationArea.AssignAllAreas | stock_location_zone/models/stock_location.py:35-41 | a parent-first recompute over all locations leaves every stored area consistent |
| LocationArea.ConsistentAreaIsNearestAreaName | stock_location_zone/models/stock_location.py:40-41 | with consistent areas, a location's area is the name of its nearest ancestor-or-self of kind `area`, or empty |
| LocationArea.ConsistentAreasUnique | stock_location_zone/models/stock_location.py:35-41 | the consistent areas are determined by the tree, kinds and names: two consistent states differing only in areas are equal |
| LocationArea.AssignAreasIdempotent | stock_location_zone/models/stock_location.py:35-41 | recomputing consistent areas changes nothing, whatever the batch |
| LocationArea.AssignAreasStep | stock_location_zone/models/stock_location.py:37-41 | one more record continues the run on the records before it |
| LocationArea.AssignAreasRanked | stock_location_zone/models/stock_location.py:37-41 | the area recompute keeps the tree acyclic |
| LocationNaming.HasNameFormat | stock_location_zone/models/stock_location.py:66 | the test the naming walk stops at: a name format that is set and not empty |
| LocationNaming.Snapshot | stock_location_zone/models/stock_location.py:71-77 | the values a format is rendered against: the bin's own name, area, corridor, row, rack and level, and its positions written in decimal |
| LocationNaming.BinName | stock_location_zone/models/stock_location.py:62-77 | the name one step of the loop gives a location: its own name for a non-bin or a bin without a format on its chain, otherwise the nearest format rendered against the bin's values, or the rendering error |
| LocationNaming.OnlyTemplatedBinsChange | stock_location_zone/models/stock_location.py:63-69 | a location whose name changes or fails to render is a bin with a name format somewhere on its chain |
| LocationNaming.FindFormatOwner | stock_location_zone/models/stock_location.py:65-69 | the while loop stops at the nearest location, counting the bin, with a non-empty name format, or finds none |
| LocationNaming.ComputeBinName | stock_location_zone/models/stock_location.py:62-77 | the loop body's result is the name its specification gives: kept for non-bins and for bins without a format, otherwise the rendered nearest format |
| LocationNaming.AssignNames | stock_location_zone/models/stock_location.py:58-77 | a successful run changes names only and keeps the tree acyclic |
| LocationNaming.RecomputeNames | stock_location_zone/models/stock_location.py:62-77 | the loop over the records leaves the locations, or the first rendering error, its specification gives |
| LocationNaming.NameKeptWithoutTemplate | stock_location_zone/models/stock_location.py:63-69 | a non-bin, or a bin with no name format from itself to its root, keeps its name |
| LocationNaming.BinUsesNearestTemplate | stock_location_zone/models/stock_location.py:65-77 | a bin's new name is the format of the first location of its chain with one, rendered with the bin's own snapshot |
| LocationNaming.BinNameIgnoresOtherLocations | stock_location_zone/models/stock_location.py:71-77 | rendering reads the bin's own values only: changing any other location's values, with its parent and format kept, leaves the bin's new name unchanged |
| LocationNaming.BinNameIgnoresFartherTemplates | stock_location_zone/models/stock_location.py:65-70 | formats above the nearest one are ignored |
| LocationNaming.RenameIsStable | stock_location_zone/models/stock_location.py:70-77 | when the format in use does not read `{name}`, a renamed location gets the same name again |
| LocationNaming.RenameRepeatsWithName | stock_location_zone/models/stock_location.py:70-77 | with a format `{name}` followed by plain text, a bin is renamed to its name plus that text, and on the next run to its name plus the text twice |
| LocationNaming.AssignNamesIndependent | stock_location_zone/models/stock_location.py:62-77 | over distinct records the run succeeds exactly when every record renders; each record then has the name computed from the initial state, and all else is unchanged |
| LocationNaming.AllRenderSnoc | stock_location_zone/models/stock_location.py:62-77 | all records of the batch render exactly when all earlier ones and the last one do |
| LocationNaming.AssignNamesIndependentStep | stock_location_zone/models/stock_location.py:62-77 | the last record of the loop succeeds exactly when it renders, and then the batch is renamed as stated |
| LocationNaming.RenameStepKeepsBatch | stock_location_zone/models/stock_location.py:77 | assigning the last record's name extends the renamed batch by that record |
| LocationNaming.BinNameAfterOtherRenames | stock_location_zone/models/stock_location.py:77 | renaming other records does not change what a record is renamed to |
| LocationNaming.AssignNamesFailurePersists | stock_location_zone/models/stock_location.py:77 | a rendering error on a prefix of the records is the error of the whole run |
| LocationNaming.AssignNamesStep | stock_location_zone/models/stock_location.py:62-77 | one more record continues the run on the records before it |
| LocationNaming.SnapshotOfRenamed | stock_location_zone/models/stock_location.py:77 | renaming a location changes only the `name` entry of its field snapshot |
| NameFormat.SpanLength | stock_location_zone/models/stock_location.py:77 | the longest prefix of characters with a property: all of them have it and the next does not |
| NameFormat.SpanOfConcat | stock_location_zone/models/stock_location.py:77 | the span of a name followed by a non-name character is the name |
| NameFormat.DigitChar | stock_location_zone/models/stock_location.py:77 | a digit value maps to a decimal digit character |
| NameFormat.NatToDecimal | stock_location_zone/models/stock_location.py:47-49 | a non-negative number is written as a non-empty string of decimal digits with no leading zero; 0 is written `0` |
| NameFormat.IntToDecimal | stock_location_zone/models/stock_location.py:47-49 | an integer field is written as Python's `str` writes it: a minus sign exactly when it is negative, then decimal digits with no leading zero that read back as its absolute value |
| NameFormat.DecimalRoundTrip | stock_location_zone/models/stock_location.py:55-56 | reading back the decimal text of a width gives the width |
| NameFormat.PadLeft | stock_location_zone/models/stock_location.py:55-56 | `0>N` padding right-aligns the value in N characters, filling on the left, and never truncates a longer value |
| NameFormat.ParseField | stock_location_zone/models/stock_location.py:77 | a replacement field that is read ends with its closing brace, and what follows it is shorter than the input, so rendering terminates |
| NameFormat.ParseSpec | stock_location_zone/models/stock_location.py:55-56 | a `0>N` spec that is read ends with the field's closing brace, and what follows it is shorter than the spec |
| NameFormat.ParseWidth | stock_location_zone/models/stock_location.py:55-56 | the spec `0>N}` reads back as width N |
| NameFormat.ParseName | stock_location_zone/models/stock_location.py:77 | a field name ends at the first character that cannot be part of a name |
| NameFormat.ParseBareSlot | stock_location_zone/models/stock_location.py:55 | `{f}` reads back as field f without padding |
| NameFormat.ParseWidthSlot | stock_location_zone/models/stock_location.py:55-56 | `{f:0>N}` reads back as field f with width N |
| NameFormat.ParseSlot | stock_location_zone/models/stock_location.py:55-56 | the text of any field piece reads back as that piece |
| NameFormat.Render | stock_location_zone/models/stock_location.py:77 | a successful rendering found every field the format reads; a missing-field error names a field the format reads and the values lack |
| NameFormat.FieldsUsed | stock_location_zone/models/stock_location.py:77 | the fields a format reads |
| NameFormat.RenderIgnoresUnusedField | stock_location_zone/models/stock_location.py:77 | changing a field the format does not read leaves the rendering unchanged |
| NameFormat.Substitute | stock_location_zone/models/stock_location.py:77 | the reference meaning of a piece sequence: it fails exactly when some slot names a field the values lack |
| NameFormat.RenderNameThenText | stock_location_zone/models/stock_location.py:77 | `{name}` followed by plain text renders as the name followed by that text |
| NameFormat.RenderField | stock_location_zone/models/stock_location.py:77 | a replacement field inserts the padded field value, or raises for a field the map lacks |
| NameFormat.RenderSlot | stock_location_zone/models/stock_location.py:77 | rendering a field piece inserts its padded value or reports the missing field |
| NameFormat.RenderChar | stock_location_zone/models/stock_location.py:77 | a literal character, with braces doubled, renders as itself |
| NameFormat.RenderLiteral | stock_location_zone/models/stock_location.py:77 | text without braces renders as itself, whatever the field values |
| NameFormat.RenderUnparse | stock_location_zone/models/stock_location.py:77 | rendering the text of a piece sequence equals substituting the pieces one after another |
| NameFormat.SubstituteIgnoresUnusedField | stock_location_zone/models/stock_location.py:77 | for the reference meaning over pieces only: a field that no piece names does not affect the result (the same property of `Render` itself is `RenderIgnoresUnusedField`) |
| NameFormat.UnparseSnoc | stock_location_zone/models/stock_location.py:55-56 | the text of pieces followed by one more piece is the text of the pieces followed by that piece's text |
| NameFormat.UnparseHelpText | stock_location_zone/models/stock_location.py:53-56 | the help text's example format is the text of its pieces |
| NameFormat.SubstituteCons | stock_location_zone/models/stock_location.py:77 | substituting a piece followed by more pieces joins the two results |
| NameFormat.SubstituteHelpText | stock_location_zone/models/stock_location.py:53-56 | substituting the example's pieces gives `A1-03.012.02` |
| NameFormat.HelpTextPiecesValid | stock_location_zone/models/stock_location.py:55-56 | the example's field names are plain names |
| NameFormat.ValidFieldName | stock_location_zone/models/stock_location.py:55-56 | a lower-case field name is a plain name at any width |
| NameFormat.HelpTextExample | stock_location_zone/models/stock_location.py:53-56 | the help text's format with area `A1`, corridor `3`, rack `12` and level `2` renders as `A1-03.012.02` |
| ZoneUniqueName.ZoneOf | stock_location_zone/models/stock_location.py:93-97 | the zone of a location: the picking zone of the nearest location with one, counting itself |
| ZoneUniqueName.InZoneScope | stock_location_zone/models/stock_location.py:101-103 | the locations the search covers: at or below some location of the zone |
| ZoneUniqueName.HasZoneDuplicate | stock_location_zone/models/stock_location.py:98-107 | the condition under which the check raises: a zone exists and another location of the same name lies in its scope |
| ZoneUniqueName.ResolveZone | stock_location_zone/models/stock_location.py:93-98 | the while loop finds the picking zone of the first location of the chain with one, or none exactly when no location of the chain has one |
| ZoneUniqueName.DetectZoneDuplicate | stock_location_zone/models/stock_location.py:92-107 | the loop body raises exactly when its specification condition holds |
| ZoneUniqueName.CheckZoneUniqueNames | stock_location_zone/models/stock_location.py:88-111 | the check passes exactly when no record has a duplicate; otherwise it raises with the name of the first record that has one |
| ZoneUniqueName.NoZoneIsExempt | stock_location_zone/models/stock_location.py:98-99 | a location with no picking zone from itself to its root never raises, whatever the names |
| ZoneUniqueName.DuplicateCondition | stock_location_zone/models/stock_location.py:101-111 | the check raises exactly when another location with the same name lies at or below some location of the resolved zone |
| ZoneUniqueName.ZoneScopeHoldsSelf | stock_location_zone/models/stock_location.py:101-104 | a location lies in its own zone's scope, so only the id test excludes it |
| ZoneUniqueName.SameZoneSameNameCollide | stock_location_zone/models/stock_location.py:101-111 | two distinct same-named locations resolving to the same zone both make the check raise |
| ZoneUniqueName.NoCandidateNoDuplicate | stock_location_zone/models/stock_location.py:102-107 | with no other same-named location in the zone's scope, the check passes |
| LocationCopy.CopyDefaults | stock_location_zone/models/stock_location.py:81-86 | the caller's defaults are kept; the name is the caller's if given, otherwise the original name followed by ` (copy)` |
| LocationCopy.CopyNameDiffers | stock_location_zone/models/stock_location.py:84-85 | without a caller's name, the copy's name starts with the original's and differs from it |
| StockLocation.LocationTable.constructor | stock_location_zone/models/stock_location.py:8-9 | a table of acyclic locations |
| StockLocation.LocationTable.ComputeArea | stock_location_zone/models/stock_location.py:35-41 | the stored locations become the area recompute of the batch; the tree stays acyclic |
| StockLocation.LocationTable.ComputeName | stock_location_zone/models/stock_location.py:58-77 | passes exactly when the naming run succeeds and then stores its result; on a rendering error it reports that error and leaves the stored locations as they were |
| StockLocation.LocationTable.CheckLocationZoneUniqueName | stock_location_zone/models/stock_location.py:88-111 | passes exactly when no record of the batch has a duplicate in its zone; otherwise it raises with the first such record's name |

## Left out

- The ORM plumbing is not modelled. This covers field declarations, the related `picking_type_id`, `oldname` and `index`, and the stored-compute, `@api.depends`, `@api.onchange` and `@api.constrains` triggers. The compute and check methods take the batch of records they run over as an explicit argument.
- The database search is replaced by an explicit relation over the map. `self.search` with `child_of` becomes the descendant-or-self relation `InZoneScope`. The filtering of archived records that the search applies by default is not modelled.
- `location._cache` is modelled by `LocationNaming.Snapshot`. It holds only the modelled fields and their text values. Unset character fields are the empty string rather than `False`, so they render as an empty string instead of `False`.
- Rendering implements only `{f}`, `{f:0>N}` and doubled braces. Any other format spec, conversion, item access or attribute access gives `UnsupportedSpec`. A spec such as `0>02` or `0>` with no digits is read as a width like Python reads it. The empty spec `{f:}`, which Python renders exactly like `{f}`, gives `UnsupportedSpec`.
- `RenderError` does not reproduce Python's exception types. A missing field gives `MissingField`, where Python raises `KeyError`. An empty field `{}` or a field of digits such as `{0}` is a positional index in Python, which raises `IndexError` because no positional values are given; the model reports it as `MissingField("")` or `MissingField("0")`. A stray brace gives `MalformedTemplate`, where Python raises `ValueError`.
- StockLocation.LocationTable.ComputeName: a rendering error is modelled as the transaction being rolled back, so the stored names are left as they were. The names the loop assigned before the error are not kept.
- StockLocation.LocationTable: locations are values in a map field, not shared records. Aliasing between record objects is not modelled. The loops run on a local copy of the map, which is stored back once at the end.
- LocationCopy.CopyDefaults: default values are modelled as strings. It takes one location's name, so the error `self.ensure_one()` raises when `copy` is called on several records is not modelled. The translation call `_()` is not modelled: the suffix is the untranslated ` (copy)`. The duplication `super().copy` itself is not modelled.
- LocationArea.AssignAreas: at a root the area is the empty string, where the code stores `False`.
- LocationNaming.RenameIsStable: re-running the naming is proved stable only for formats that do not read `{name}`, because with `{name}` it is not (`RenameRepeatsWithName`).
- The `stock_package_nbr` module (`put_in_pack`) is not part of this model. It is framework control flow with float comparisons.
- Concurrent edits of the location tree and transaction isolation are not modelled.
