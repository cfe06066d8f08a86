# LandGoals helpers and top-acreage selection, modelled in Dafny

This project models the self-contained logic of two ArcGIS 10.3 geoprocessing
scripts of the LandGoals repository and proves what that logic guarantees.

- `Helper.py` is a helper library. The model covers:
  - the scratch-workspace message (`getScratchMsg`);
  - best-effort deletion of scratch datasets (`garbagePickup`);
  - geometry cleaning with its bounded retry loop (`CleanFeatures`);
  - clip or erase followed by cleaning and scratch cleanup (`CleanClip`, `CleanErase`);
  - the sorted distinct values of a field (`unique_values`);
  - a two-field table turned into a dictionary (`TabToDict`);
  - the elapsed-time text (`GetElapsedTime`).
- `SelectTop.py` selects the top-scoring unprotected farmland up to 500,000
  acres (`SelectTopAgr`). The model covers what happens after the engine has
  sorted the region polygons by mean score:
  - the `ACRES` field;
  - the running `CUM_ACRES` total;
  - the `SELECTION` flag;
  - the final `SELECTION = 1` query.

Files:

- `text.dfy` (module `Text`): decimal text of integers as Python's `str()`
  writes it, and a reader that parses it back.
- `helper.dfy` (module `Helper`): `Helper.py`.
- `select_top.dfy` (module `SelectTop`): the acreage rule of `SelectTop.py`.

Calls into the geoprocessing engine (RepairGeometry, MultipartToSinglepart,
CopyFeatures, Clip, Erase, Delete, AddMessage) are not executed. Each routine
returns them instead, as a trace `calls: seq<Call>` in the order the script
issues them. The one engine outcome the scripts react to is whether
MultipartToSinglepart succeeds. It is an oracle parameter `explodes: nat -> bool`:
`explodes(k)` tells whether attempt k succeeds. A Delete's outcome is swallowed
by the script, so nothing in the model depends on it. `os.sep` is the constant
`Helper.Sep` = `"\"`, because ArcGIS Desktop 10.3 runs on Windows. Datetimes
are integer microsecond counts on one time line.

`CleanFeatures` is a loop in the source and a `while` loop in the model. Its
contract equates the trace with a closed-form function, `CleanFeaturesTrace`:
an initial repair, the failed attempts before the first success, and then the
successful conversion or the copy fallback. Lemmas about that function count
the attempts, repairs and copies. The CUM_ACRES accumulator is a loop method,
`SelectTop.Accumulate`. Its contract ties each row to a prefix sum. The
selection properties are proved about the closed-form table
`SelectTop.FieldTable`, and `SelectTop.SelectTopAgr` states them of its own
results.

## Model

| member | source | states |
|---|---|---|
| `Helper.ScratchMsg` | Helper.py:28-35 | The result is the fixed in-memory warning exactly when the workspace is `"in_memory"`. Otherwise it is "Scratch outputs will be stored here: " followed by the workspace path. |
| `Helper.GarbagePickup` | Helper.py:49-56 | Exactly one Delete per list element, in list order. No error result exists, so a failed delete can stop nothing and reach no caller. |
| `Helper.FirstSuccess` | Helper.py:66-80 | The first successful attempt in 1..10 (11 when every attempt fails). Every attempt before it failed. |
| `Helper.FailedAttemptsCounts` | Helper.py:74-80 | n failed attempts hold exactly n conversion calls and n repairs, and no copy or delete. |
| `Helper.RetryMsgNumber` | Helper.py:77 | The retry message is "Trying to repair geometry (try # " followed by str(counter) and ")", so the attempt number reads back from it. |
| `Helper.CleanFeatures` | Helper.py:58-86 | The calls issued equal the closed-form `CleanFeaturesTrace`: one repair first, then each failed attempt's conversion, two messages and repair, then the successful conversion or the give-up message and copy. The result is always `outFeats`. |
| `Helper.CleanFeaturesCounts` | Helper.py:62-84 | With k the first successful attempt: min(k, 10) conversions; k repairs on success and 11 when all fail; one copy exactly when all fail; no delete. |
| `Helper.CleanFeaturesSucceedsAt` | Helper.py:66-80 | If attempt k is the first success: exactly k conversion attempts, k repairs, no copy, and the last call is the successful conversion. |
| `Helper.CleanFeaturesFallback` | Helper.py:66-86 | At most 10 conversion attempts and at most one copy. The copy is made exactly when all 10 attempts fail. Then there are 10 attempts and 11 repairs, and the copy is the last call. |
| `Helper.CleanClip` | Helper.py:88-105 | The temporary path is scratchGDB + sep + "tmpClip". The calls are the clip into it, the cleaning trace of it, and a Delete of it. The Delete happens once when scratchGDB is `"in_memory"` and never otherwise. The result is `outFeats`. |
| `Helper.CleanErase` | Helper.py:107-124 | The same as CleanClip, with Erase and "tmpErased". |
| `Helper.CleanupDeletes` | Helper.py:101-103 | An overlay followed by a cleaning issues no Delete, so every Delete of CleanClip/CleanErase comes from the cleanup. |
| `Helper.InsertSortedSpec` | Helper.py:141 | Inserting into a strictly increasing sequence keeps it strictly increasing, and its element set gains exactly x. |
| `Helper.UniqueValues` | Helper.py:137-141 | The result is strictly increasing. Its element set equals the set of the field's values. |
| `Helper.StrictlyIncreasingUnique` | Helper.py:141 | Two strictly increasing sequences with the same elements are equal. So the result is the one sorted list of the distinct values. |
| `Helper.UniqueValuesDetermined` | Helper.py:137-141 | The result depends only on the set of values, not on row order or repetitions. |
| `Helper.TabToDict` | Helper.py:143-151 | The key set is exactly the set of keys in the rows. Each key maps to the value of the last row carrying it (last write wins). |
| `Helper.Subtract` | Helper.py:155 | t2 - t1 as a normalised timedelta: 0 <= seconds < 86400, 0 <= microseconds < 10^6, and days, seconds and microseconds add up to t2 - t1. |
| `Helper.SubtractUnique` | Helper.py:155 | The normalised timedelta of a given length is unique. |
| `Helper.ElapsedParts` | Helper.py:156-157 | d = delta.days, h*3600 + m*60 + s = delta.seconds, 0 <= m, s < 60, and h < 24 when delta.seconds < 86400. |
| `Helper.FormatElapsedFlat` | Helper.py:158 | The elapsed-time text is the parts' `str()` forms and the four fixed labels, joined left to right. |
| `Helper.ParseFormatElapsed` | Helper.py:158 | The text "<d> days, <h> hours, <m> minutes, <s> seconds" parses back to exactly d, h, m and s. |
| `Helper.GetElapsedTime` | Helper.py:153-159 | The result is str(d) + " days, " + str(h) + " hours, " + str(m) + " minutes, " + str(s) + " seconds", with the numbers written exactly as `str()` writes them. It parses back to d, h, m and s. These numbers satisfy d = days of t2 - t1, h*3600 + m*60 + s = its seconds, h < 24, m < 60 and s < 60. |
| `Text.FromNat` | Helper.py:158 | The `str()` of a non-negative integer: non-empty, digits only, with a leading '0' exactly for 0. |
| `Text.FromInt` | Helper.py:158 | The `str()` of an integer: the digits of its absolute value, with a '-' in front when negative. |
| `Text.ToNatFromNat` | Helper.py:158 | Reading the digits of `str(n)` gives back n. |
| `Text.ReadIntFromInt` | Helper.py:158 | `str(n)` followed by a non-digit reads back as n and that rest. |
| `SelectTop.MeanOfHighCells` | SelectTop.py:49 | A region whose cells all score above 80 has a zonal mean above 80. |
| `SelectTop.Acres` | SelectTop.py:101-102 | ACRES = Shape_Area * 0.000247105. It is non-negative for non-negative area, and at least 19.99996 acres for a candidate region of at least 80937.1 square meters. |
| `SelectTop.Select` | SelectTop.py:114-119 | SELECTION is 1 exactly when CUM_ACRES <= 500000, and 0 exactly when it is above. |
| `SelectTop.Accumulate` | SelectTop.py:104-110 | The accumulator starts at 0. Row i's CUM_ACRES is the sum of ACRES over rows 0..i. |
| `SelectTop.CalculateFields` | SelectTop.py:93-120 | The table's rows are each polygon with its ACRES, the running CUM_ACRES up to and including that row, and the SELECTION of that CUM_ACRES. |
| `SelectTop.SelectedWithinGoal` | SelectTop.py:112-125 | In a table whose SELECTION follows `select`, every row the query keeps has SELECTION 1 and CUM_ACRES <= 500000. |
| `SelectTop.SelectWhere` | SelectTop.py:122-125 | A row is in the output exactly when it is in the table with SELECTION = 1. The output is no longer than the table. |
| `SelectTop.SelectWhereSingleton` | SelectTop.py:124-125 | A one-row table gives that row when its SELECTION is 1, and nothing otherwise. |
| `SelectTop.SelectWhereAppend` | SelectTop.py:124-125 | The query on two tables joined is the query on the first followed by the query on the second. With the singleton case, this makes the output exactly the rows with SELECTION = 1, in table order and once per occurrence. |
| `SelectTop.SelectTopAgr` | SelectTop.py:93-125 | The table and output equal the closed forms. Every output row has SELECTION 1 and CUM_ACRES <= 500000. For non-negative areas the output is a leading run of the table, its acreage is <= 500000, and the next row would exceed that. When also sorted by MEAN, every kept row's MEAN is >= every dropped row's. |
| `SelectTop.SumPrefixMonotone` | SelectTop.py:106-110 | A running total of non-negative values never decreases. |
| `SelectTop.CumAcresMonotone` | SelectTop.py:104-110 | For non-negative areas, CUM_ACRES does not decrease down the sorted table. |
| `SelectTop.SelectionIsPrefix` | SelectTop.py:112-120 | For non-negative areas, every row above a selected row is selected. |
| `SelectTop.SelectWherePrefix` | SelectTop.py:124-125 | When the flagged rows are exactly the first k, the query returns those k rows in order. |
| `SelectTop.SelectionBoundary` | SelectTop.py:112-125 | For non-negative areas, the output is exactly the rows before the first whose CUM_ACRES exceeds 500000. |
| `SelectTop.TopSelection` | SelectTop.py:95-125 | For non-negative areas, the output is the table's first k rows, unchanged and in order. Their ACRES total at most 500000, and with row k+1 the total would exceed 500000. |
| `SelectTop.SelectionRespectsScore` | SelectTop.py:88-125 | If the table is sorted by MEAN descending, every kept row's MEAN is >= every dropped row's MEAN. |
| `SelectTop.CandidateCountBound` | SelectTop.py:71-74 | When every polygon is at least 80937.1 square meters, the output has at most 500000 / 19.99996 (about 25,000) rows. |

## Left out

- All engine operations are closed foreign code: RepairGeometry, MultipartToSinglepart, CopyFeatures, Clip, Erase, Delete, GetCount, Describe, SelectLayerByAttribute and CreateFileGDB. The model records that they are called and does not model their effect.
- CleanFeatures: an exception from RepairGeometry or CopyFeatures, or from Clip or Erase in CleanClip/CleanErase, propagates to the caller in the source. The model assumes these calls return; only the conversion's failure is modelled.
- GarbagePickup: the outcome of a Delete is not an input, because the script swallows every failure. So the model cannot express anything about what was actually deleted.
- UniqueValues: field values are modelled as integers. Python 2's ordering of strings, floats, None and mixed types is not modelled.
- TabToDict: the model reads key and value from each row, which is what the function evidently intends. As written, the source reads `sc[0]` and `sc[1]` on the cursor object rather than on `row` (Helper.py:148-149). What that does depends on the engine's cursor class, which is not part of this model.
- GetElapsedTime: datetimes are modelled as integer microsecond counts. Time zones, and datetime arithmetic beyond subtraction, are not modelled.
- SelectTop.Acres: computed over exact reals. The engine's double-precision rounding of ACRES and CUM_ACRES is not modelled, so exact agreement with the engine's floating-point values is not claimed.
- SelectTop.SelectTopAgr: starts from the sorted polygon table. These raster and engine steps are taken as given: Con, IsNull, PolygonToRaster, RegionGroup, ZonalGeometry, RasterToPolygon, ZonalStatisticsAsTable, JoinField and Sort. They are represented only by their filters: `HighScore` and `LargeEnough`, with `IsCandidate` for a polygon. The sort order is a predicate, `SortedByScore`.
- SelectTop.CandidateCountBound: uses the polygon's Shape_Area as its region's area. For a four-connected region converted without simplification the two are the same, but the engine's ZonalGeometry area is not modelled.
- Not modelled at all:
  - `multiMeasure`: float parsing and `str(float)` formatting.
  - `createTmpWorkspace`: wall-clock timestamp and geodatabase creation.
  - `tback`: traceback and engine message formatting.
  - `countFeatures`, `countSelectedFeatures`, `clearSelection`, `printMsg`, `printWrng` and `printErr`: thin wrappers over engine or console I/O.
  - The licence check-out/check-in, the environment settings and `main` in SelectTop.py.
