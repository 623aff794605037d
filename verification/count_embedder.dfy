/** The count embedder: one-hot counting of feature values per region.

    Tables are modelled as frames: an index, an ordered list of column names and,
    per row, a map holding the cells that have a value (a column missing from a
    row's map is NaN). Feature values are strings; a geometry is carried as the
    text of its cell and is only ever dropped. */
module CountEmbedding {
  import opened Results
  import StringOrder

  const GeometryColumn: string := "geometry"

  datatype Frame<K> = Frame(index: seq<K>, columns: seq<string>, rows: seq<map<string, string>>) {
    /** A rectangular table: one row per index value, cells only in known columns. */
    ghost predicate Valid()
    {
      && |rows| == |index|
      && forall i, c :: 0 <= i < |rows| && c in rows[i] ==> c in columns
    }

    /** pandas' `DataFrame.empty`: true when either axis has length 0. */
    predicate IsEmpty()
    {
      |index| == 0 || |columns| == 0
    }
  }

  /** The embedding: row i belongs to region index[i] and maps every column name to its count. */
  datatype Embedding<R> = Embedding(index: seq<R>, columns: seq<string>, rows: seq<map<string, nat>>)

  /** The errors pandas raises on the way to the counts. */
  datatype EmbedError =
    /** Joining on one level of the joint's index needs a unique feature index. */
    | NonUniqueFeatureIndex
    /** Two joined tables may not share a column name when no suffix is given. */
    | ColumnsOverlap(columns: set<string>)
    /** `get_dummies` has nothing to concatenate when the joined table has no column. */
    | NothingToEncode

  /** No value occurs twice in the index. */
  predicate UniqueIndex<F(==)>(index: seq<F>)
  {
    forall i, j :: 0 <= i < j < |index| ==> index[i] != index[j]
  }

  /** The column names two tables have in common. */
  function SharedColumns<K, K'>(left: Frame<K>, right: Frame<K'>): set<string>
  {
    set c | c in left.columns && c in right.columns
  }

  /** One row of the joint table joined with the features: its region and its cells. */
  datatype JoinedRow<R> = JoinedRow(region: R, cells: map<string, string>)

  /** `s` with every occurrence of `x` removed, in order. */
  function Without(s: seq<string>, x: string): (r: seq<string>)
    ensures forall y :: y in r <==> y in s && y != x
    ensures x !in s ==> r == s
  {
    if s == [] then []
    else if s[0] == x then Without(s[1..], x)
    else [s[0]] + Without(s[1..], x)
  }

  /** Removing `x` from a single column keeps it unless it is `x`. */
  lemma WithoutSingle(y: string, x: string)
    ensures Without([y], x) == if y == x then [] else [y]
  {
    assert [y][1..] == [];
  }

  /** Removing `x` works piece by piece, so the other columns keep their order and their number. */
  lemma {:induction false} WithoutAppend(a: seq<string>, b: seq<string>, x: string)
    ensures Without(a + b, x) == Without(a, x) + Without(b, x)
  {
    if a == [] {
      assert a + b == b;
    } else {
      assert (a + b)[0] == a[0] && (a + b)[1..] == a[1..] + b;
      WithoutAppend(a[1..], b, x);
    }
  }

  /** `_remove_geometry_if_present`: drops the geometry column when there is one. */
  function RemoveGeometryIfPresent<K>(f: Frame<K>): (r: Frame<K>)
    requires f.Valid()
    ensures r.Valid() && r.index == f.index && |r.rows| == |f.rows|
    ensures GeometryColumn !in f.columns ==> r == f
    ensures r.columns == Without(f.columns, GeometryColumn)
    ensures forall i :: 0 <= i < |r.rows| ==> GeometryColumn !in r.rows[i]
    ensures forall i, c :: 0 <= i < |r.rows| && c != GeometryColumn ==>
      (c in r.rows[i] <==> c in f.rows[i]) && (c in r.rows[i] ==> r.rows[i][c] == f.rows[i][c])
  {
    if GeometryColumn in f.columns then
      Frame(f.index, Without(f.columns, GeometryColumn),
            seq(|f.rows|, i requires 0 <= i < |f.rows| => f.rows[i] - {GeometryColumn}))
    else f
  }

  /** The frame without its first row. */
  function Rest<K>(f: Frame<K>): (r: Frame<K>)
    requires f.Valid() && |f.index| > 0
    ensures r.Valid() && r.columns == f.columns && |r.index| == |f.index| - 1
  {
    Frame(f.index[1..], f.columns, f.rows[1..])
  }

  /** The rows of `features` whose index value is `f`, in order. */
  function RowsWithIndex<F(==)>(index: seq<F>, rows: seq<map<string, string>>, f: F): (r: seq<map<string, string>>)
    requires |rows| == |index|
    ensures r == [] <==> f !in index
    ensures forall m :: m in r ==> exists k :: 0 <= k < |index| && index[k] == f && rows[k] == m
  {
    if index == [] then []
    else
      var rest := RowsWithIndex(index[1..], rows[1..], f);
      assert f in index <==> index[0] == f || f in index[1..] by {
        if f in index && index[0] != f {
          var k :| 0 <= k < |index| && index[k] == f;
          assert index[1..][k - 1] == f;
        }
      }
      assert forall m :: m in rest ==> exists k :: 0 <= k < |index| && index[k] == f && rows[k] == m by {
        forall m | m in rest ensures exists k :: 0 <= k < |index| && index[k] == f && rows[k] == m {
          var k :| 0 <= k < |index[1..]| && index[1..][k] == f && rows[1..][k] == m;
          assert index[k + 1] == f && rows[k + 1] == m;
        }
      }
      if index[0] == f then [rows[0]] + rest else rest
  }

  /** The only position holding `f`. */
  ghost predicate OnlyAt<F>(index: seq<F>, f: F, k: int)
  {
    0 <= k < |index| && index[k] == f && forall k' :: 0 <= k' < |index| && index[k'] == f ==> k' == k
  }

  /** With a unique index value, the join finds exactly that one row. */
  lemma {:induction false} RowsWithUniqueIndex<F>(index: seq<F>, rows: seq<map<string, string>>, f: F, k: nat)
    requires |rows| == |index| && OnlyAt(index, f, k)
    ensures RowsWithIndex(index, rows, f) == [rows[k]]
  {
    var rest := RowsWithIndex(index[1..], rows[1..], f);
    if k == 0 {
      assert f !in index[1..];
    } else {
      forall k' | 0 <= k' < |index[1..]| && index[1..][k'] == f ensures k' == k - 1 {
        assert index[k' + 1] == f;
      }
      RowsWithUniqueIndex(index[1..], rows[1..], f, k - 1);
    }
  }

  /** The cells of the first feature row indexed `f`, or no cells (all NaN) when there is none. */
  function LookupRow<F(==)>(index: seq<F>, rows: seq<map<string, string>>, f: F): (r: map<string, string>)
    requires |rows| == |index|
    ensures f !in index ==> r == map[]
    ensures forall k :: OnlyAt(index, f, k) ==> r == rows[k]
  {
    if index == [] then map[]
    else if index[0] == f then rows[0]
    else
      assert forall k :: OnlyAt(index, f, k) ==> OnlyAt(index[1..], f, k - 1);
      LookupRow(index[1..], rows[1..], f)
  }

  /** The left join of the joint table with the features on the feature level
      of the joint's index: a joint row meets every feature row with its feature
      id, or keeps NaN cells when there is none. pandas computes
      `joint_df.join(features_df)` only for a unique feature index
      (`NonUniqueFeatureIndex` otherwise), where this is one row per joint row
      (`JoinRowsWithUniqueIndex`). */
  function JoinRows<R, F(==)>(joint: Frame<(R, F)>, features: Frame<F>): (r: seq<JoinedRow<R>>)
    requires joint.Valid() && features.Valid()
    ensures forall k, c :: 0 <= k < |r| && c in r[k].cells ==> c in joint.columns || c in features.columns
    ensures forall k :: 0 <= k < |r| ==> exists j :: 0 <= j < |joint.index| && joint.index[j].0 == r[k].region
    ensures |r| >= |joint.index|
    decreases |joint.index|
  {
    if joint.index == [] then []
    else
      var (region, f) := joint.index[0];
      var matches := RowsWithIndex(features.index, features.rows, f);
      var head :=
        if matches == [] then [JoinedRow(region, joint.rows[0])]
        else seq(|matches|, k requires 0 <= k < |matches| => JoinedRow(region, joint.rows[0] + matches[k]));
      var tail := Rest(joint);
      var rest := JoinRows(tail, features);
      assert forall k :: 0 <= k < |rest| ==> exists j :: 0 <= j < |joint.index| && joint.index[j].0 == rest[k].region by {
        forall k | 0 <= k < |rest| ensures exists j :: 0 <= j < |joint.index| && joint.index[j].0 == rest[k].region {
          var j :| 0 <= j < |tail.index| && tail.index[j].0 == rest[k].region;
          assert joint.index[j + 1] == tail.index[j];
        }
      }
      assert forall k :: 0 <= k < |head| ==> head[k].region == joint.index[0].0;
      assert forall k, c :: 0 <= k < |head| && c in head[k].cells ==> c in joint.columns || c in features.columns by {
        forall k, c | 0 <= k < |head| && c in head[k].cells ensures c in joint.columns || c in features.columns {
          if c !in joint.rows[0] {
            assert matches != [] && c in matches[k];
            assert matches[k] in matches;
            var i :| 0 <= i < |features.index| && features.index[i] == f && features.rows[i] == matches[k];
          }
        }
      }
      head + rest
  }

  /** With a unique feature index the first joint row contributes exactly one
      joined row: its own cells together with its feature's cells. */
  lemma JoinRowsUnfold<R, F>(joint: Frame<(R, F)>, features: Frame<F>)
    requires joint.Valid() && features.Valid() && UniqueIndex(features.index) && |joint.index| > 0
    ensures JoinRows(joint, features) ==
      [JoinedRow(joint.index[0].0, joint.rows[0] + LookupRow(features.index, features.rows, joint.index[0].1))]
        + JoinRows(Rest(joint), features)
  {
    var (region, f) := joint.index[0];
    var matches := RowsWithIndex(features.index, features.rows, f);
    var cells := LookupRow(features.index, features.rows, f);
    var head :=
      if matches == [] then [JoinedRow(region, joint.rows[0])]
      else seq(|matches|, k requires 0 <= k < |matches| => JoinedRow(region, joint.rows[0] + matches[k]));
    assert JoinRows(joint, features) == head + JoinRows(Rest(joint), features);
    if f in features.index {
      var k :| 0 <= k < |features.index| && features.index[k] == f;
      assert OnlyAt(features.index, f, k);
      RowsWithUniqueIndex(features.index, features.rows, f, k);
      assert head == [JoinedRow(region, joint.rows[0] + cells)];
    } else {
      assert joint.rows[0] + cells == joint.rows[0];
    }
  }

  /** `joint_df.join(features_df)` with a unique feature index: row k of the
      result is joint row k with the cells of its feature added, NaN when the
      feature is absent. */
  lemma {:induction false} JoinRowsWithUniqueIndex<R, F>(joint: Frame<(R, F)>, features: Frame<F>)
    requires joint.Valid() && features.Valid() && UniqueIndex(features.index)
    ensures var r := JoinRows(joint, features);
      && |r| == |joint.index|
      && forall k :: 0 <= k < |r| ==>
           r[k] == JoinedRow(joint.index[k].0, joint.rows[k] + LookupRow(features.index, features.rows, joint.index[k].1))
    decreases |joint.index|
  {
    if |joint.index| > 0 {
      JoinRowsUnfold(joint, features);
      JoinRowsWithUniqueIndex(Rest(joint), features);
      var r := JoinRows(joint, features);
      forall k | 1 <= k < |r|
        ensures r[k] == JoinedRow(joint.index[k].0, joint.rows[k] + LookupRow(features.index, features.rows, joint.index[k].1))
      {
        assert r[k] == JoinRows(Rest(joint), features)[k - 1];
        assert Rest(joint).index[k - 1] == joint.index[k] && Rest(joint).rows[k - 1] == joint.rows[k];
      }
    }
  }

  /** The column name `get_dummies` gives to value `v` of column `c`. */
  function DummyName(c: string, v: string): (name: string)
    ensures |name| == |c| + 1 + |v| && name[..|c|] == c && name[|c|] == '_' && name[|c| + 1..] == v
  {
    c + "_" + v
  }

  /** The dummy columns a row sets to 1: one per cell that holds a value. */
  function DummyNames(cells: map<string, string>): set<string>
  {
    set c | c in cells :: DummyName(c, cells[c])
  }

  /** The distinct values of column `c` among `rows`, in increasing order
      (the categories `get_dummies` gives that column). */
  function ValuesIn<R>(rows: seq<JoinedRow<R>>, c: string): (r: seq<string>)
    ensures StringOrder.StrictlySorted(r)
    ensures forall v :: v in r <==> exists k :: 0 <= k < |rows| && c in rows[k].cells && rows[k].cells[c] == v
  {
    if rows == [] then []
    else
      var rest := ValuesIn(rows[1..], c);
      assert forall v :: v in rest <==> exists k :: 1 <= k < |rows| && c in rows[k].cells && rows[k].cells[c] == v by {
        forall v ensures v in rest <==> exists k :: 1 <= k < |rows| && c in rows[k].cells && rows[k].cells[c] == v {
          if v in rest {
            var k :| 0 <= k < |rows[1..]| && c in rows[1..][k].cells && rows[1..][k].cells[c] == v;
            assert rows[k + 1] == rows[1..][k];
          }
          if exists k :: 1 <= k < |rows| && c in rows[k].cells && rows[k].cells[c] == v {
            var k :| 1 <= k < |rows| && c in rows[k].cells && rows[k].cells[c] == v;
            assert rows[1..][k - 1] == rows[k];
          }
        }
      }
      if c in rows[0].cells then StringOrder.Insert(rest, rows[0].cells[c]) else rest
  }

  /** The columns of `pd.get_dummies` over the joined table: column by column in
      table order, one dummy per distinct value in increasing order. */
  function DummyColumns<R>(columns: seq<string>, rows: seq<JoinedRow<R>>): (r: seq<string>)
    ensures forall name :: name in r <==>
      exists c, k :: c in columns && 0 <= k < |rows| && c in rows[k].cells && name == DummyName(c, rows[k].cells[c])
  {
    if columns == [] then []
    else
      var values := ValuesIn(rows, columns[0]);
      var here := seq(|values|, i requires 0 <= i < |values| => DummyName(columns[0], values[i]));
      var rest := DummyColumns(columns[1..], rows);
      assert forall name :: name in here <==>
        exists k :: 0 <= k < |rows| && columns[0] in rows[k].cells && name == DummyName(columns[0], rows[k].cells[columns[0]]) by {
        forall name ensures name in here <==>
          exists k :: 0 <= k < |rows| && columns[0] in rows[k].cells && name == DummyName(columns[0], rows[k].cells[columns[0]])
        {
          if name in here {
            var i :| 0 <= i < |here| && here[i] == name;
            assert values[i] in values;
          }
          if exists k :: 0 <= k < |rows| && columns[0] in rows[k].cells && name == DummyName(columns[0], rows[k].cells[columns[0]]) {
            var k :| 0 <= k < |rows| && columns[0] in rows[k].cells && name == DummyName(columns[0], rows[k].cells[columns[0]]);
            var v := rows[k].cells[columns[0]];
            assert v in values;
            var i :| 0 <= i < |values| && values[i] == v;
            assert here[i] == name;
          }
        }
      }
      forall name ensures name in here + rest <==>
        exists c, k :: c in columns && 0 <= k < |rows| && c in rows[k].cells && name == DummyName(c, rows[k].cells[c])
      {
        if exists c, k :: c in columns && 0 <= k < |rows| && c in rows[k].cells && name == DummyName(c, rows[k].cells[c]) {
          var c, k :| c in columns && 0 <= k < |rows| && c in rows[k].cells && name == DummyName(c, rows[k].cells[c]);
          if c == columns[0] {
            assert name in here;
          } else {
            assert c in columns[1..];
            assert name in rest;
          }
        }
        if name in here {
          var k :| 0 <= k < |rows| && columns[0] in rows[k].cells && name == DummyName(columns[0], rows[k].cells[columns[0]]);
          assert columns[0] in columns;
        }
        if name in rest {
          var c, k :| c in columns[1..] && 0 <= k < |rows| && c in rows[k].cells && name == DummyName(c, rows[k].cells[c]);
          assert c in columns;
        }
      }
      here + rest
  }

  /** The sum, over the joined rows of `region`, of dummy column `name`:
      `pd.get_dummies(...).groupby(level=0).sum()` at (region, name). */
  function Count<R(==)>(rows: seq<JoinedRow<R>>, region: R, name: string): nat
  {
    if rows == [] then 0
    else (if rows[0].region == region && name in DummyNames(rows[0].cells) then 1 else 0) + Count(rows[1..], region, name)
  }

  /** The region ids that occur in the joined rows: the groups of `groupby(level=0)`. */
  function RegionsOf<R>(rows: seq<JoinedRow<R>>): set<R>
  {
    set k | 0 <= k < |rows| :: rows[k].region
  }

  /** The table of counts: one row per region that occurs in the joined rows, one entry per dummy column. */
  function GroupCounts<R(==)>(rows: seq<JoinedRow<R>>, columns: seq<string>): (r: map<R, map<string, nat>>)
    ensures r.Keys == RegionsOf(rows)
    ensures forall region, name :: region in r ==> (name in r[region] <==> name in columns)
    ensures forall region, name :: region in r && name in r[region] ==> r[region][name] == Count(rows, region, name)
  {
    map region | region in RegionsOf(rows) :: map name | name in columns :: Count(rows, region, name)
  }

  /** Columns of `names` that are not yet in `existing`, in the order of their
      first occurrence: the columns `df[names] = 0` appends. */
  function NewColumns(existing: seq<string>, names: seq<string>): (r: seq<string>)
    ensures forall n :: n in r <==> n in names && n !in existing
    ensures forall i, j :: 0 <= i < j < |r| ==> r[i] != r[j]
  {
    if names == [] then []
    else
      var prev := NewColumns(existing, names[..|names| - 1]);
      var n := names[|names| - 1];
      assert forall y :: y in names <==> y in names[..|names| - 1] || y == n by {
        assert names == names[..|names| - 1] + [n];
      }
      if n in existing || n in prev then prev else prev + [n]
  }

  /** `expected[~expected.isin(columns)]`: the expected names that are not columns, in order. */
  function Missing(expected: seq<string>, columns: seq<string>): (r: seq<string>)
    ensures forall n :: n in r <==> n in expected && n !in columns
  {
    if expected == [] then []
    else if expected[0] in columns then Missing(expected[1..], columns)
    else [expected[0]] + Missing(expected[1..], columns)
  }

  /** `regions_df.join(region_embeddings, how="left").fillna(0)`: one row per
      region, in order; a region without counts gets 0 in every column. */
  function LeftJoin<R>(regions: seq<R>, columns: seq<string>, counts: map<R, map<string, nat>>): (r: Embedding<R>)
    ensures r.index == regions && r.columns == columns && |r.rows| == |regions|
    ensures forall i :: 0 <= i < |regions| && regions[i] in counts ==> r.rows[i] == counts[regions[i]]
    ensures forall i, n :: 0 <= i < |regions| && regions[i] !in counts && n in columns ==> n in r.rows[i] && r.rows[i][n] == 0
    ensures forall i, n :: 0 <= i < |regions| && regions[i] !in counts ==> (n in r.rows[i] <==> n in columns)
  {
    var zero := map n | n in columns :: 0;
    Embedding(regions, columns, seq(|regions|, i requires 0 <= i < |regions| =>
      if regions[i] in counts then counts[regions[i]] else zero))
  }

  /** A region that no joined row belongs to counts 0 in every column. */
  lemma {:induction false} CountWithoutJoinedRows<R>(rows: seq<JoinedRow<R>>, region: R, name: string)
    requires forall k :: 0 <= k < |rows| ==> rows[k].region != region
    ensures Count(rows, region, name) == 0
  {
    if rows != [] {
      CountWithoutJoinedRows(rows[1..], region, name);
    }
  }

  /** A name that is not among the dummy columns counts 0 for every region. */
  lemma {:induction false} CountOutsideDummyColumns<R>(rows: seq<JoinedRow<R>>, columns: seq<string>, region: R, name: string)
    requires forall k, c :: 0 <= k < |rows| && c in rows[k].cells ==> c in columns
    requires name !in DummyColumns(columns, rows)
    ensures Count(rows, region, name) == 0
  {
    if rows != [] {
      forall c | c in rows[0].cells ensures name != DummyName(c, rows[0].cells[c]) {
        assert c in columns && c in rows[0].cells;
      }
      CountOutsideDummyColumns(rows[1..], columns, region, name);
    }
  }

  /** Without `_` in column names, a dummy name tells its column and its value apart. */
  lemma DummyNameInjective(c: string, v: string, c': string, v': string)
    requires '_' !in c && '_' !in c' && DummyName(c, v) == DummyName(c', v')
    ensures c == c' && v == v'
  {
  }

  /** The number of joint pairs (region, f) whose feature f has value `v` in column `c`. */
  function PairsWithValue<R(==), F(==)>(index: seq<(R, F)>, features: Frame<F>, region: R, c: string, v: string): nat
    requires features.Valid()
  {
    if index == [] then 0
    else
      var cells := LookupRow(features.index, features.rows, index[0].1);
      (if index[0].0 == region && c in cells && cells[c] == v then 1 else 0)
        + PairsWithValue(index[1..], features, region, c, v)
  }

  /** When no column name holds `_`, the dummy `c_v` is set in a row exactly
      when the row holds value v in column c. */
  lemma DummyNameInCells(cells: map<string, string>, c: string, v: string)
    requires '_' !in c && forall c' :: c' in cells ==> '_' !in c'
    ensures DummyName(c, v) in DummyNames(cells) <==> c in cells && cells[c] == v
  {
    if DummyName(c, v) in DummyNames(cells) {
      var c' :| c' in cells && DummyName(c, v) == DummyName(c', cells[c']);
      DummyNameInjective(c, v, c', cells[c']);
    }
  }

  /** The cells a feature contributes lie in the feature table's columns. */
  lemma LookupRowColumns<F>(features: Frame<F>, f: F)
    requires features.Valid() && UniqueIndex(features.index)
    ensures forall c :: c in LookupRow(features.index, features.rows, f) ==> c in features.columns
  {
    if f in features.index {
      var k :| 0 <= k < |features.index| && features.index[k] == f;
      assert OnlyAt(features.index, f, k);
    }
  }

  /** For a joint table without columns of its own (the joiner's result once its
      geometry is dropped), a unique feature index and column names without `_`,
      the count at (region, c_v) is the number of joint pairs of that region
      whose feature has value v in column c. */
  lemma {:induction false} CountIsPairsWithValue<R, F>(joint: Frame<(R, F)>, features: Frame<F>, region: R, c: string, v: string)
    requires joint.Valid() && features.Valid() && joint.columns == [] && UniqueIndex(features.index)
    requires '_' !in c && forall c' :: c' in features.columns ==> '_' !in c'
    ensures Count(JoinRows(joint, features), region, DummyName(c, v)) == PairsWithValue(joint.index, features, region, c, v)
    decreases |joint.index|
  {
    if joint.index != [] {
      var f := joint.index[0].1;
      var cells := LookupRow(features.index, features.rows, f);
      JoinRowsUnfold(joint, features);
      CountIsPairsWithValue(Rest(joint), features, region, c, v);
      assert forall c' :: c' in joint.rows[0] ==> c' in joint.columns;
      assert joint.rows[0] + cells == cells;
      LookupRowColumns(features, f);
      DummyNameInCells(cells, c, v);
      var joined := JoinRows(joint, features);
      assert joined[0] == JoinedRow(joint.index[0].0, cells) && joined[1..] == JoinRows(Rest(joint), features);
    }
  }

  /** Left-joining the regions with a table that holds the count of every
      region that has joined rows gives every region its count, 0 included. */
  lemma LeftJoinCounts<R>(regions: seq<R>, joined: seq<JoinedRow<R>>, columns: seq<string>, counts: map<R, map<string, nat>>)
    requires counts.Keys == RegionsOf(joined)
    requires forall region, n :: region in counts ==> (n in counts[region] <==> n in columns)
    requires forall region, n :: region in counts && n in counts[region] ==> counts[region][n] == Count(joined, region, n)
    ensures var e := LeftJoin(regions, columns, counts);
      && (forall i, n :: 0 <= i < |regions| ==> (n in e.rows[i] <==> n in columns))
      && (forall i, n :: 0 <= i < |regions| && n in e.rows[i] ==> e.rows[i][n] == Count(joined, regions[i], n))
  {
    forall i, n | 0 <= i < |regions| && regions[i] !in counts
      ensures Count(joined, regions[i], n) == 0
    {
      CountWithoutJoinedRows(joined, regions[i], n);
    }
  }

  /** Every row with the entry for column `n` set to 0. */
  function SetColumnToZero<R>(counts: map<R, map<string, nat>>, n: string): map<R, map<string, nat>>
  {
    map region | region in counts :: counts[region][n := 0]
  }

  /** The frame `region_embeddings` that `_filter_to_expected_features` changes in place. */
  class RegionEmbeddings<R(==)> {
    var columns: seq<string>
    var counts: map<R, map<string, nat>>

    /** Every row has exactly the table's columns. */
    ghost predicate Valid()
      reads this
    {
      forall region, n :: region in counts ==> (n in counts[region] <==> n in columns)
    }

    constructor (columns: seq<string>, counts: map<R, map<string, nat>>)
      requires forall region, n :: region in counts ==> (n in counts[region] <==> n in columns)
      ensures Valid() && this.columns == columns && this.counts == counts
    {
      this.columns := columns;
      this.counts := counts;
    }

    /** `df[n] = 0`: overwrites column `n`, appending it when it is not there yet. */
    method AssignZeroColumn(n: string)
      requires Valid()
      modifies this
      ensures Valid()
      ensures columns == old(columns) + (if n in old(columns) then [] else [n])
      ensures counts == SetColumnToZero(old(counts), n)
    {
      if n !in columns {
        columns := columns + [n];
      }
      counts := SetColumnToZero(counts, n);
    }

    /** `df[names] = 0`: pandas assigns the scalar one column at a time. */
    method AssignZero(names: seq<string>)
      requires Valid()
      modifies this
      ensures Valid()
      ensures columns == old(columns) + NewColumns(old(columns), names)
      ensures counts.Keys == old(counts).Keys
      ensures forall region, n :: region in counts && n in names ==> n in counts[region] && counts[region][n] == 0
      ensures forall region, n :: region in old(counts) && n in old(counts)[region] && n !in names ==>
        n in counts[region] && counts[region][n] == old(counts)[region][n]
    {
      for k := 0 to |names|
        invariant Valid()
        invariant columns == old(columns) + NewColumns(old(columns), names[..k])
        invariant counts.Keys == old(counts).Keys
        invariant forall region, n :: region in counts && n in names[..k] ==> n in counts[region] && counts[region][n] == 0
        invariant forall region, n :: region in old(counts) && n in old(counts)[region] && n !in names[..k] ==>
          n in counts[region] && counts[region][n] == old(counts)[region][n]
      {
        var n := names[k];
        assert names[..k + 1][..k] == names[..k];
        assert forall y :: y in names[..k + 1] <==> y in names[..k] || y == n by {
          assert names[..k + 1] == names[..k] + [n];
        }
        ghost var before := counts;
        AssignZeroColumn(n);
        forall region, m | region in counts && m in names[..k + 1] ensures m in counts[region] && counts[region][m] == 0 {
          if m != n {
            assert m in names[..k];
            assert m in before[region] && before[region][m] == 0;
          }
        }
        forall region, m | region in old(counts) && m in old(counts)[region] && m !in names[..k + 1]
          ensures m in counts[region] && counts[region][m] == old(counts)[region][m]
        {
          assert m !in names[..k] && m != n;
          assert m in before[region] && before[region][m] == old(counts)[region][m];
        }
      }
      assert names[..|names|] == names;
    }

    /** `df[names]`: a new frame with exactly the columns `names`, in that order. */
    method Select(names: seq<string>) returns (t: RegionEmbeddings<R>)
      requires Valid() && forall n :: n in names ==> n in columns
      ensures t.Valid() && t.columns == names && t.counts.Keys == counts.Keys
      ensures forall region, n :: region in t.counts && n in names ==> t.counts[region][n] == counts[region][n]
    {
      t := new RegionEmbeddings(names, map region | region in counts :: map n | n in names :: counts[region][n]);
    }
  }

  class CountEmbedder {
    var expectedOutputFeatures: Option<seq<string>>

    /** Keeps the expected features as given; `None` when they are omitted. */
    constructor (expectedOutputFeatures: Option<seq<string>> := None)
      ensures this.expectedOutputFeatures == expectedOutputFeatures
    {
      this.expectedOutputFeatures := expectedOutputFeatures;
    }

    /** `_filter_to_expected_features`: adds the missing expected columns as 0 in
        place, then keeps the expected columns only, in the expected order. */
    method FilterToExpectedFeatures<R(==)>(regionEmbeddings: RegionEmbeddings<R>) returns (t: RegionEmbeddings<R>)
      requires expectedOutputFeatures.Some? && regionEmbeddings.Valid()
      modifies regionEmbeddings
      ensures t.Valid() && t.columns == expectedOutputFeatures.value
      ensures regionEmbeddings.Valid()
      ensures var added := Missing(expectedOutputFeatures.value, old(regionEmbeddings.columns));
        regionEmbeddings.columns == old(regionEmbeddings.columns) + NewColumns(old(regionEmbeddings.columns), added)
      ensures regionEmbeddings.counts.Keys == old(regionEmbeddings.counts).Keys
      ensures var added := Missing(expectedOutputFeatures.value, old(regionEmbeddings.columns));
        forall region, n :: region in regionEmbeddings.counts && n in added ==>
          n in regionEmbeddings.counts[region] && regionEmbeddings.counts[region][n] == 0
      ensures var added := Missing(expectedOutputFeatures.value, old(regionEmbeddings.columns));
        forall region, n :: region in old(regionEmbeddings.counts) && n in old(regionEmbeddings.counts)[region] && n !in added ==>
          n in regionEmbeddings.counts[region] && regionEmbeddings.counts[region][n] == old(regionEmbeddings.counts)[region][n]
      ensures t.counts.Keys == old(regionEmbeddings.counts).Keys
      ensures forall region, n :: region in t.counts && n in t.columns && n !in old(regionEmbeddings.columns) ==>
        t.counts[region][n] == 0
      ensures forall region, n :: region in t.counts && n in t.columns && n in old(regionEmbeddings.columns) ==>
        n in old(regionEmbeddings.counts)[region] && t.counts[region][n] == old(regionEmbeddings.counts)[region][n]
    {
      var expected := expectedOutputFeatures.value;
      var missing := Missing(expected, regionEmbeddings.columns);
      regionEmbeddings.AssignZero(missing);
      t := regionEmbeddings.Select(expected);
    }

    /** The non-empty path of `embed`, from the join on: the counts table,
        filtered to the expected features when there are any, left-joined to the regions. */
    method EmbedJoined<R(==), F(==)>(regions: seq<R>, featuresDf: Frame<F>, jointDf: Frame<(R, F)>)
      returns (e: Embedding<R>)
      requires featuresDf.Valid() && jointDf.Valid()
      requires UniqueIndex(featuresDf.index) && SharedColumns(jointDf, featuresDf) == {}
      requires jointDf.columns + featuresDf.columns != []
      ensures var joined := JoinRows(jointDf, featuresDf);
        && e.index == regions && |e.rows| == |regions|
        && e.columns == (if expectedOutputFeatures.Some? then expectedOutputFeatures.value
                         else DummyColumns(jointDf.columns + featuresDf.columns, joined))
        && (forall i, n :: 0 <= i < |regions| ==> (n in e.rows[i] <==> n in e.columns))
        && (forall i, n :: 0 <= i < |regions| && n in e.rows[i] ==> e.rows[i][n] == Count(joined, regions[i], n))
    {
      var joined := JoinRows(jointDf, featuresDf);
      var allColumns := jointDf.columns + featuresDf.columns;
      var dummies := DummyColumns(allColumns, joined);
      var regionEmbeddings := new RegionEmbeddings(dummies, GroupCounts(joined, dummies));
      if expectedOutputFeatures.Some? {
        regionEmbeddings := FilterToExpectedFeatures(regionEmbeddings);
        forall region, n | region in regionEmbeddings.counts && n in regionEmbeddings.columns && n !in dummies
          ensures Count(joined, region, n) == 0
        {
          CountOutsideDummyColumns(joined, allColumns, region, n);
        }
      }
      LeftJoinCounts(regions, joined, regionEmbeddings.columns, regionEmbeddings.counts);
      e := LeftJoin(regions, regionEmbeddings.columns, regionEmbeddings.counts);
    }

    /** `embed`: counts, per region, the joined features holding each value of
        each feature column. pandas refuses the join on a repeated feature id
        and on a column name both tables hold, and `get_dummies` refuses a
        joined table without columns; these are the failures. */
    method Embed<R(==), F(==)>(regions: seq<R>, features: Frame<F>, joint: Frame<(R, F)>)
      returns (r: Result<Embedding<R>, EmbedError>)
      requires features.Valid() && joint.Valid()
      ensures features.IsEmpty() || joint.IsEmpty() ==> r.Success?
      ensures (features.IsEmpty() || joint.IsEmpty()) && expectedOutputFeatures.None? ==>
        r == Success(Embedding([], [], []))
      ensures (features.IsEmpty() || joint.IsEmpty()) && expectedOutputFeatures.Some? ==>
        && r.Success?
        && r.value.index == regions && r.value.columns == expectedOutputFeatures.value
        && |r.value.rows| == |regions|
        && (forall i, n :: 0 <= i < |regions| ==> (n in r.value.rows[i] <==> n in r.value.columns))
        && (forall i, n :: 0 <= i < |regions| && n in r.value.rows[i] ==> r.value.rows[i][n] == 0)
      ensures !features.IsEmpty() && !joint.IsEmpty() ==>
        var featuresDf := RemoveGeometryIfPresent(features);
        var jointDf := RemoveGeometryIfPresent(joint);
        var shared := SharedColumns(jointDf, featuresDf);
        && (r.Failure? <==> !UniqueIndex(features.index) || shared != {} || jointDf.columns + featuresDf.columns == [])
        && (!UniqueIndex(features.index) ==> r == Failure(NonUniqueFeatureIndex))
        && (UniqueIndex(features.index) && shared != {} ==> r == Failure(ColumnsOverlap(shared)))
        && (UniqueIndex(features.index) && shared == {} && jointDf.columns + featuresDf.columns == [] ==>
              r == Failure(NothingToEncode))
      ensures !features.IsEmpty() && !joint.IsEmpty() && r.Success? ==>
        var featuresDf := RemoveGeometryIfPresent(features);
        var jointDf := RemoveGeometryIfPresent(joint);
        var joined := JoinRows(jointDf, featuresDf);
        && r.value.index == regions && |r.value.rows| == |regions|
        && r.value.columns == (if expectedOutputFeatures.Some? then expectedOutputFeatures.value
                               else DummyColumns(jointDf.columns + featuresDf.columns, joined))
        && (forall i, n :: 0 <= i < |regions| ==> (n in r.value.rows[i] <==> n in r.value.columns))
        && (forall i, n :: 0 <= i < |regions| && n in r.value.rows[i] ==> r.value.rows[i][n] == Count(joined, regions[i], n))
    {
      if features.IsEmpty() || joint.IsEmpty() {
        if expectedOutputFeatures.Some? {
          var expected := expectedOutputFeatures.value;
          var zero := map n | n in expected :: 0;
          r := Success(Embedding(regions, expected, seq(|regions|, i => zero)));
        } else {
          r := Success(Embedding([], [], []));
        }
        return;
      }
      var featuresDf := RemoveGeometryIfPresent(features);
      var jointDf := RemoveGeometryIfPresent(joint);
      if !UniqueIndex(featuresDf.index) {
        r := Failure(NonUniqueFeatureIndex);
        return;
      }
      var shared := SharedColumns(jointDf, featuresDf);
      if shared != {} {
        r := Failure(ColumnsOverlap(shared));
        return;
      }
      if jointDf.columns + featuresDf.columns == [] {
        r := Failure(NothingToEncode);
        return;
      }
      var e := EmbedJoined(regions, featuresDf, jointDf);
      r := Success(e);
    }
  }
}
