# srai regionizer and embedder core, modelled in Dafny

This project models two pieces of the `srai` spatial-AI library:

- **The Voronoi regionizer** (`srai/regionizers/voronoi_regionizer.py`). The
  constructor walks the seed table in order. For each row it records the row's
  index as a region id and the centroid of the row's geometry as a seed. It then
  rejects an empty table ("Minimum one seed is required.") and any two equal
  seeds ("Duplicate seeds present."). `transform` passes the seeds and
  `max_meters_between_points` (default 10 000) to the spherical Voronoi
  generator. It keys the generated regions by the recorded ids, in order, in
  CRS 4326 (WGS84), and clips them to the given mask.
- **The count embedder** (`srai/embedders/count_embedder.py`). It left-joins the
  joint table (region, feature) with the feature table and one-hot encodes every
  feature column: `get_dummies` gives one column `column_value` per distinct
  value, with values in increasing order. It sums these per region and
  left-joins the sums onto the regions, so a region without features gets 0.
  When expected output features are configured, the result is restricted to
  exactly those columns, in that order: missing ones are added as 0 and
  unexpected ones are dropped. If the features or the joint table is empty,
  the result is all-zero over the expected columns, or an empty table when no
  expected columns are set.

Files:

- `results.dfy`: module `Results` with `Option` and `Result`. A `Result`
  stands for the exceptions the source raises: its `ValueError`s, and pandas'
  `NotImplementedError` for a non-unique feature index.
- `voronoi_regionizer.dfy`: module `Voronoi`. Points are abstract: any type
  with equality. The centroid, the generator and the clip are function
  parameters.
- `string_order.dfy`: module `StringOrder`. Python's ordering of strings, used
  to build the sorted category lists that `get_dummies` produces.
- `count_embedder.dfy`: module `CountEmbedding`.
  - Tables are `Frame`s: an index, an ordered list of column names, and per row
    a map holding the cells that have a value. A column missing from a row's
    map is NaN.
  - `RegionEmbeddings` is the frame that `_filter_to_expected_features`
    changes in place.
  - `CountEmbedder` holds the configured expected features.

Points of the Voronoi model worth knowing:
- A single seed is accepted. Only an empty table is rejected.
- Seeds are checked for exact equality of their centroids, not of projected
  sphere positions.
- Clipping is the geopandas call: the model does not promise an entry for a
  seed whose region misses the mask.

Points of the count embedder model worth knowing:
- Joining the (region, feature) index with the feature index on one level
  requires a unique feature index; pandas raises otherwise, before it looks at
  the columns. The model returns `NonUniqueFeatureIndex`.
- A column name held by both tables makes the join raise: `ColumnsOverlap`.
- When neither table has a column left once `geometry` is dropped,
  `get_dummies` has nothing to concatenate and raises: `NothingToEncode`.

## Model

| member | source | states |
|---|---|---|
| `Voronoi.VoronoiRegionizer.constructor` | srai/regionizers/voronoi_regionizer.py:40-45 | `region_ids` lists the seed table's index values in row order, one per row; `seeds[i]` is the centroid of row i; `max_meters_between_points` is stored unchanged |
| `Voronoi.AnyPairEqual` | srai/regionizers/voronoi_regionizer.py:50 | the `any` over `combinations(seeds, 2)` is true exactly when two distinct positions hold equal seeds |
| `Voronoi.CheckSeeds` | srai/regionizers/voronoi_regionizer.py:47-51 | an empty table gives exactly the "minimum one seed" error, so it is checked before duplicates; the duplicate error arises exactly when the table is non-empty and two seeds are equal; no error exactly when there is at least one seed and all seeds are pairwise distinct |
| `Voronoi.Create` | srai/regionizers/voronoi_regionizer.py:17-51 | constructing a regionizer fails with "Minimum one seed is required." exactly on an empty table and with "Duplicate seeds present." exactly when two rows have equal centroids; a regionizer that is returned has ids and seeds in 1:1 correspondence with the rows, in order, at least one seed, pairwise-distinct seeds and the given maximum distance (default 10 000) |
| `Voronoi.BuildRegions` | srai/regionizers/voronoi_regionizer.py:64-66 | the pre-clip region table has one row per region id, in order, and row i holds the i-th generated region, in CRS 4326; it fails exactly when the generator's output length differs from the number of ids |
| `Voronoi.VoronoiRegionizer.Transform` | srai/regionizers/voronoi_regionizer.py:63-68 | the result is the clip, to the mask, of the generated regions keyed by `region_ids` in order; it fails exactly on a length mismatch |
| `CountEmbedding.CountEmbedder.constructor` | srai/embedders/count_embedder.py:16-30 | the expected features are stored as given, or as `None` when they are omitted |
| `CountEmbedding.RemoveGeometryIfPresent` | srai/embedders/count_embedder.py:97-100 | the columns are the input's columns with `geometry` dropped, the others in their order; `geometry` is gone from every row; the index and every other cell stay unchanged; a frame without `geometry` is returned as is |
| `CountEmbedding.WithoutSingle` | srai/embedders/count_embedder.py:97-100 | dropping a name from a one-column list empties it exactly when that is the name, and otherwise keeps it |
| `CountEmbedding.WithoutAppend` | srai/embedders/count_embedder.py:97-100 | dropping a column distributes over concatenation, so it keeps the relative order of all other columns |
| `CountEmbedding.RowsWithIndex` | srai/embedders/count_embedder.py:70 | the feature rows that a joint row's feature id meets in the join are empty exactly when the id is not in the feature index, and each of them carries that id |
| `CountEmbedding.RowsWithUniqueIndex` | srai/embedders/count_embedder.py:70 | with a unique feature index the join meets exactly the one feature row with that id |
| `CountEmbedding.LookupRow` | srai/embedders/count_embedder.py:70 | the cells a joint pair gets from the features: the feature's row when its id occurs once, all NaN when it is absent |
| `CountEmbedding.JoinRows` | srai/embedders/count_embedder.py:70 | the left join keeps at least one row per joint row; every joined row belongs to a region of the joint table and holds cells only in joint or feature columns |
| `CountEmbedding.JoinRowsUnfold` | srai/embedders/count_embedder.py:70 | with a unique feature index the first joint row yields exactly one joined row, its own cells plus its feature's cells, followed by the join of the remaining rows |
| `CountEmbedding.JoinRowsWithUniqueIndex` | srai/embedders/count_embedder.py:70 | with a unique feature index the join has exactly one row per joint row, in order, and row k is joint row k's region with its cells plus the cells of its feature (none when the feature is absent) |
| `CountEmbedding.DummyNameInCells` | srai/embedders/count_embedder.py:71 | without `_` in column names, a row sets the dummy `c_v` exactly when it holds value v in column c |
| `CountEmbedding.LookupRowColumns` | srai/embedders/count_embedder.py:70 | the cells a feature contributes to the join lie in the feature table's columns |
| `CountEmbedding.DummyName` | srai/embedders/count_embedder.py:45-46 | a dummy column name is the feature column, `_`, then the value |
| `StringOrder.Insert` | srai/embedders/count_embedder.py:71 | adding a value to the strictly increasing category list keeps it strictly increasing and adds exactly that value |
| `CountEmbedding.ValuesIn` | srai/embedders/count_embedder.py:71 | the categories of a column are strictly increasing and are exactly the values the column holds in some joined row |
| `CountEmbedding.DummyColumns` | srai/embedders/count_embedder.py:41-47 | a name is a dummy column exactly when some joined row holds a value in some column whose dummy name it is |
| `CountEmbedding.GroupCounts` | srai/embedders/count_embedder.py:71 | the grouped sum has one row per region occurring in the join, with every dummy column and, at each, the count of that region's joined rows setting the dummy |
| `CountEmbedding.CountIsPairsWithValue` | srai/embedders/count_embedder.py:41-71 | the entry at region r and column `c_v` equals the number of joint pairs (r, f) whose feature f has value v in column c |
| `CountEmbedding.CountWithoutJoinedRows` | srai/embedders/count_embedder.py:75 | a region with no joined features counts 0 in every column |
| `CountEmbedding.CountOutsideDummyColumns` | srai/embedders/count_embedder.py:90-93 | a column that no joined value produces counts 0 for every region, so adding missing expected columns as 0 agrees with the counting |
| `CountEmbedding.LeftJoin` | srai/embedders/count_embedder.py:75 | the result has the regions' index as rows, in order; a region with counts keeps its row; any other region gets 0 in every column |
| `CountEmbedding.LeftJoinCounts` | srai/embedders/count_embedder.py:75 | after the left join and `fillna(0)`, every region's entry in every column is its count, 0 when it has no joined rows |
| `CountEmbedding.Missing` | srai/embedders/count_embedder.py:90-92 | the missing features are exactly the expected names that are not columns |
| `CountEmbedding.NewColumns` | srai/embedders/count_embedder.py:93 | the columns that assigning 0 appends are exactly the assigned names not yet present, each once |
| `CountEmbedding.RegionEmbeddings.AssignZeroColumn` | srai/embedders/count_embedder.py:93 | assigning 0 to one column appends it when absent and sets it to 0 in every row |
| `CountEmbedding.RegionEmbeddings.AssignZero` | srai/embedders/count_embedder.py:93 | after assigning 0 to a list of columns, each of them is 0 in every row, every other entry is unchanged, new columns are appended in order of first occurrence, and the rows are the same |
| `CountEmbedding.RegionEmbeddings.Select` | srai/embedders/count_embedder.py:94 | the selection has exactly the requested columns, in that order, with the same rows and entries |
| `CountEmbedding.CountEmbedder.FilterToExpectedFeatures` | srai/embedders/count_embedder.py:79-95 | the filtered table's columns are exactly the expected list, in order; expected columns already present keep their counts; missing ones are 0; the rows are the same; the table passed in is changed in place, gaining the missing expected columns at its end, 0 in every row, with every other entry and the rows unchanged |
| `CountEmbedding.CountEmbedder.EmbedJoined` | srai/embedders/count_embedder.py:66-77 | for a join pandas accepts (unique feature index, no shared column, some column to encode): one row per region, in order; the columns are the expected list when set, otherwise the dummy columns; every entry is the region's count of joined features with that value |
| `CountEmbedding.CountEmbedder.Embed` | srai/embedders/count_embedder.py:32-77 | an empty feature or joint table gives all zeros over the expected columns with one row per region, or an empty table without expected columns; otherwise it fails exactly when the feature index repeats an id (`NonUniqueFeatureIndex`, checked first), the two tables share a column (`ColumnsOverlap` with the shared names) or no column is left to encode (`NothingToEncode`), and on success it returns one row per region, in order, with every column's count |

## Left out

- `generate_voronoi_regions` is not part of this model. It is the spherical Voronoi computation: scipy's `SphericalVoronoi`, floating-point sphere geometry and edge interpolation. It is a function parameter that always returns a list of regions: its own failures (for example, seeds on one arc) are not modelled.
- Centroid computation and the GeoDataFrame `clip` are floating-point polygon operations. Both are function parameters. Seed equality (`equals`) is equality of the abstract points.
- The seed table's other columns and the `gdf` passed to `transform` appear only as the inputs of those parameters.
- srai/regionizers/s2_regionizer.py, srai/loaders/osm_way_loader.py, srai/joiners/base.py and srai/regionizers/__init__.py are not part of this model. They are a wrapper over an external cell library, a constant table, an abstract interface and re-exports.
- Regions are modelled by their index only. The non-geometry columns of `regions_gdf`, which the left join carries through, are not modelled.
- Feature values are strings. `get_dummies` leaves numeric columns un-encoded, and a missing cell stands for NaN. pandas dtypes, such as float counts after `fillna`, are not modelled.
- Two (column, value) pairs with the same dummy name (`a_b` + `c` and `a` + `b_c`) are counted as one column. pandas keeps them as two columns with one name.
- A frame with the same column name twice is not modelled.
- The order of the groups from `groupby(level=0)` is not modelled. The left join orders the rows by the regions anyway.
- The join relies on the joint index's second level having the feature index's name. A mismatch of index names (a pandas error) is not modelled.
- CountEmbedding.CountIsPairsWithValue: stated for a joint table whose only column is its geometry (the joiner's result) and for column names without `_`. Without these conditions, `Embed` still states every entry through `Count` over the joined rows.
