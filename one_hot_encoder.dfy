/** The one-hot encoder (src/preprocessing/encoders/onehotencoder.rs): `fit` builds, for
    every feature column holding a categorical cell, a category -> index map in
    first-seen order; `transform` turns a mixed dataset into a numeric one in which each
    categorical cell becomes an indicator block and each numeric cell is copied. */
module OneHotEncoding {
  import opened Base
  import P = Preprocessing
  import opened Datasets
  import opened FirstSeen

  /** Column name -> (category -> index). */
  type CategoryMap = map<string, map<string, nat>>

  /** `OneHotEncoderFitter`: the category map and the fit status. */
  datatype OneHotEncoderFitter = OneHotEncoderFitter(categoryMap: CategoryMap, fitStatus: P.FitStatus)

  /** `OneHotEncoder`: a transformer holding the fitter it was made from. */
  datatype OneHotEncoder = OneHotEncoder(fitter: OneHotEncoderFitter)

  /** `OneHotEncoderFitter::default()`: no categories, not fit. */
  function Default(): (f: OneHotEncoderFitter)
    ensures f.categoryMap == map[] && f.fitStatus == P.NotFit
  {
    OneHotEncoderFitter(map[], P.DefaultFitStatus())
  }

  /** Every row has a cell for each of the first n column indices (`row[col_index]`). */
  predicate RowsCover(data: seq<seq<MixedDataValue>>, n: nat)
  {
    forall i :: 0 <= i < |data| ==> n <= |data[i]|
  }

  /** The categories of column c, row by row; numeric cells are skipped. */
  function ColumnCategories(data: seq<seq<MixedDataValue>>, c: nat): seq<string>
    requires RowsCover(data, c + 1)
  {
    if data == [] then []
    else
      var last := data[|data| - 1][c];
      ColumnCategories(data[..|data| - 1], c) + (if last.Categorical? then [last.category] else [])
  }

  /** A column has no category exactly when all its cells are numeric. */
  lemma {:induction false} NoCategoriesIffNumeric(data: seq<seq<MixedDataValue>>, c: nat)
    requires RowsCover(data, c + 1)
    ensures ColumnCategories(data, c) == [] <==> forall i :: 0 <= i < |data| ==> data[i][c].Numeric?
    decreases |data|
  {
    if data != [] {
      NoCategoriesIffNumeric(data[..|data| - 1], c);
    }
  }

  /** The category map after the first n columns: a column whose category list is
      empty adds nothing; otherwise its first-seen map is stored under its name,
      replacing a map stored under the same name before. */
  function CategoryMapOf(cols: seq<string>, data: seq<seq<MixedDataValue>>, n: nat): CategoryMap
    requires n <= |cols| && RowsCover(data, |cols|)
  {
    if n == 0 then map[]
    else
      var cm := CategoryMapOf(cols, data, n - 1);
      var colMap := Codes(ColumnCategories(data, n - 1));
      if |colMap| == 0 then cm else cm[cols[n - 1] := colMap]
  }

  /** Indices of a category map are below its size, so indexing an indicator block
      with them never panics. */
  ghost predicate InRange(m: map<string, nat>)
  {
    forall k :: k in m ==> m[k] < |m|
  }

  /** What `fit` guarantees of every column map: non-empty, indices dense and unique. */
  ghost predicate WellFormed(cm: CategoryMap)
  {
    forall col :: col in cm ==> |cm[col]| > 0 && Dense(cm[col])
  }

  /** Every stored map is non-empty, with dense and unique indices. */
  lemma {:induction false} CategoryMapWellFormed(cols: seq<string>, data: seq<seq<MixedDataValue>>, n: nat)
    requires n <= |cols| && RowsCover(data, |cols|)
    ensures WellFormed(CategoryMapOf(cols, data, n))
  {
    if n > 0 {
      CategoryMapWellFormed(cols, data, n - 1);
      CodesDense(ColumnCategories(data, n - 1));
    }
  }

  /** Every stored map is filed under the name of one of the columns scanned. */
  lemma {:induction false} CategoryMapDomain(cols: seq<string>, data: seq<seq<MixedDataValue>>, n: nat)
    requires n <= |cols| && RowsCover(data, |cols|)
    ensures forall col :: col in CategoryMapOf(cols, data, n) ==> col in cols[..n]
  {
    if n > 0 {
      CategoryMapDomain(cols, data, n - 1);
      assert forall col :: col in cols[..n - 1] ==> col in cols[..n];
    }
  }

  /** With distinct column names, column c has a map exactly when it has a categorical
      cell, and that map is the first-seen map of its categories. */
  lemma {:induction false} CategoryMapAt(cols: seq<string>, data: seq<seq<MixedDataValue>>, n: nat, c: nat)
    requires n <= |cols| && RowsCover(data, |cols|) && c < n
    requires forall a, b :: 0 <= a < b < |cols| ==> cols[a] != cols[b]
    ensures cols[c] in CategoryMapOf(cols, data, n) <==> ColumnCategories(data, c) != []
    ensures cols[c] in CategoryMapOf(cols, data, n) ==>
              CategoryMapOf(cols, data, n)[cols[c]] == Codes(ColumnCategories(data, c))
  {
    if c < n - 1 {
      CategoryMapAt(cols, data, n - 1, c);
    } else {
      CodesEmpty(ColumnCategories(data, c));
      CategoryMapDomain(cols, data, n - 1);
      assert cols[c] !in cols[..n - 1];
    }
  }

  /** The body of `fit`'s row loop for column c: a categorical value not yet in the
      column map is given the map's current size; anything else leaves the map alone. */
  method FitCell(data: seq<seq<MixedDataValue>>, c: nat, r: nat, colMap: map<string, nat>)
    returns (next: map<string, nat>)
    requires RowsCover(data, c + 1) && r < |data|
    requires colMap == Codes(ColumnCategories(data[..r], c))
    ensures next == Codes(ColumnCategories(data[..r + 1], c))
  {
    var row := data[r];
    ghost var cats := ColumnCategories(data[..r], c);
    assert data[..r + 1][..r] == data[..r];
    next := colMap;
    if row[c].Categorical? {
      var value := row[c].category;
      var index := |next|;
      assert ColumnCategories(data[..r + 1], c) == cats + [value];
      CodesKeys(cats);
      if value !in next {
        CodesAppendNew(cats, value);
        next := next[value := index];
      } else {
        CodesAppendSeen(cats, [value]);
      }
    } else {
      assert ColumnCategories(data[..r + 1], c) == cats;
    }
  }

  /** The inner loop of `fit` over the rows for column c. */
  method FitColumn(data: seq<seq<MixedDataValue>>, c: nat) returns (colMap: map<string, nat>)
    requires RowsCover(data, c + 1)
    ensures colMap == Codes(ColumnCategories(data, c))
  {
    colMap := map[];
    var r := 0;
    while r < |data|
      invariant 0 <= r <= |data|
      invariant colMap == Codes(ColumnCategories(data[..r], c))
    {
      colMap := FitCell(data, c, r, colMap);
      r := r + 1;
    }
    assert data[..r] == data;
  }

  /** The body of `fit`'s column loop: scan column n and store its map when non-empty. */
  method FitStep(cols: seq<string>, data: seq<seq<MixedDataValue>>, n: nat, categoryMap: CategoryMap)
    returns (next: CategoryMap)
    requires n < |cols| && RowsCover(data, |cols|)
    requires categoryMap == CategoryMapOf(cols, data, n)
    ensures next == CategoryMapOf(cols, data, n + 1)
  {
    var colName := cols[n];
    var colMap := FitColumn(data, n);
    next := categoryMap;
    if |colMap| != 0 {
      next := next[colName := colMap];
    }
  }

  /** The outer loop of `fit` over the column names. */
  method FitColumns(cols: seq<string>, data: seq<seq<MixedDataValue>>) returns (categoryMap: CategoryMap)
    requires RowsCover(data, |cols|)
    ensures categoryMap == CategoryMapOf(cols, data, |cols|)
  {
    categoryMap := map[];
    var colIndex := 0;
    while colIndex < |cols|
      invariant 0 <= colIndex <= |cols|
      invariant categoryMap == CategoryMapOf(cols, data, colIndex)
    {
      categoryMap := FitStep(cols, data, colIndex, categoryMap);
      colIndex := colIndex + 1;
    }
  }

  /** `fit`: for every column in order, scan its cells and store its first-seen map when
      it has one; any previous category map is discarded and the status becomes `Fit`.
      Every row must have a cell for each column name (`row[col_index]`). */
  method Fit<Y>(fitter: OneHotEncoderFitter, input: MixedDataset<Y>) returns (r: Result<OneHotEncoder>)
    requires RowsCover(input.data, |input.dataColumns|)
    ensures r.Success?
    ensures r.value.fitter.categoryMap == CategoryMapOf(input.dataColumns, input.data, |input.dataColumns|)
    ensures r.value.fitter.fitStatus == P.Fit
    ensures WellFormed(r.value.fitter.categoryMap)
  {
    var categoryMap := FitColumns(input.dataColumns, input.data);
    CategoryMapWellFormed(input.dataColumns, input.data, |input.dataColumns|);
    r := Success(OneHotEncoder(OneHotEncoderFitter(categoryMap, P.Fit)));
  }

  // ---------------------------------------------------------------------------
  // transform: column names

  /** `distinct` lists every key of a map exactly once, in some order. */
  ghost predicate Enumerates(order: seq<string>, keys: set<string>)
  {
    && |order| == |keys|
    && (forall a, b :: 0 <= a < b < |order| ==> order[a] != order[b])
    && (forall k :: k in keys <==> k in order)
  }

  /** `"<col>_<cat>"` for every category, in the given order. */
  function Prefixed(col: string, order: seq<string>): (names: seq<string>)
    ensures |names| == |order|
  {
    seq(|order|, i requires 0 <= i < |order| => col + "_" + order[i])
  }

  /** The names of the first n columns: a column with a map contributes one prefixed
      name per category (in the order its keys were visited), any other its own name. */
  function Names(cm: CategoryMap, cols: seq<string>, orders: seq<seq<string>>, n: nat): seq<string>
    requires n <= |cols| && n <= |orders|
  {
    if n == 0 then []
    else
      Names(cm, cols, orders, n - 1)
        + (if cols[n - 1] in cm then Prefixed(cols[n - 1], orders[n - 1]) else [cols[n - 1]])
  }

  /** The number of output names of the first n columns: the map's size, or 1. */
  function NameCount(cm: CategoryMap, cols: seq<string>, n: nat): nat
    requires n <= |cols|
  {
    if n == 0 then 0
    else NameCount(cm, cols, n - 1) + (if cols[n - 1] in cm then |cm[cols[n - 1]]| else 1)
  }

  /** The keys of one column map, visited in the unspecified order of `map.keys()`. */
  method PrefixedNames(col: string, colMap: map<string, nat>) returns (block: seq<string>, ghost order: seq<string>)
    ensures Enumerates(order, colMap.Keys)
    ensures block == Prefixed(col, order)
    ensures |block| == |colMap|
    ensures forall k :: k in colMap ==> col + "_" + k in block
  {
    block := [];
    order := [];
    var rest := colMap.Keys;
    while rest != {}
      invariant rest <= colMap.Keys
      invariant |order| + |rest| == |colMap.Keys|
      invariant forall a, b :: 0 <= a < b < |order| ==> order[a] != order[b]
      invariant forall k :: k in order <==> k in colMap.Keys - rest
      invariant block == Prefixed(col, order)
      decreases rest
    {
      var category :| category in rest;
      assert category !in order;
      assert Prefixed(col, order + [category]) == block + [col + "_" + category];
      block := block + [col + "_" + category];
      order := order + [category];
      rest := rest - {category};
    }
    forall k | k in colMap ensures col + "_" + k in block {
      assert k in order;
      var i :| 0 <= i < |order| && order[i] == k;
      assert block[i] == col + "_" + k;
    }
  }

  /** The body of the name loop for column c: its prefixed names when it has a map,
      otherwise its own name. */
  method ColumnNamesStep(cm: CategoryMap, cols: seq<string>, c: nat, names: seq<string>, ghost orders: seq<seq<string>>)
    returns (next: seq<string>, ghost order: seq<string>)
    requires c < |cols| && |orders| == c
    requires names == Names(cm, cols, orders, c) && |names| == NameCount(cm, cols, c)
    ensures cols[c] in cm ==> Enumerates(order, cm[cols[c]].Keys)
    ensures next == Names(cm, cols, orders + [order], c + 1)
    ensures |next| == NameCount(cm, cols, c + 1)
  {
    var colName := cols[c];
    order := [];
    if colName in cm {
      var block;
      block, order := PrefixedNames(colName, cm[colName]);
      next := names + block;
    } else {
      next := names + [colName];
    }
    NamesPrefixStable(cm, cols, orders + [order], orders, c);
  }

  /** The name loop of `transform`. */
  method ColumnNames(cm: CategoryMap, cols: seq<string>) returns (names: seq<string>, ghost orders: seq<seq<string>>)
    ensures |orders| == |cols|
    ensures forall c :: 0 <= c < |cols| && cols[c] in cm ==> Enumerates(orders[c], cm[cols[c]].Keys)
    ensures names == Names(cm, cols, orders, |cols|)
    ensures |names| == NameCount(cm, cols, |cols|)
  {
    names := [];
    orders := [];
    var c := 0;
    while c < |cols|
      invariant 0 <= c <= |cols|
      invariant |orders| == c
      invariant forall k :: 0 <= k < c && cols[k] in cm ==> Enumerates(orders[k], cm[cols[k]].Keys)
      invariant names == Names(cm, cols, orders, c)
      invariant |names| == NameCount(cm, cols, c)
    {
      ghost var order;
      names, order := ColumnNamesStep(cm, cols, c, names, orders);
      orders := orders + [order];
      c := c + 1;
    }
  }

  /** Names of the first n columns depend only on the first n key orders. */
  lemma {:induction false} NamesPrefixStable(cm: CategoryMap, cols: seq<string>,
                                            a: seq<seq<string>>, b: seq<seq<string>>, n: nat)
    requires n <= |cols| && n <= |a| && n <= |b| && a[..n] == b[..n]
    ensures Names(cm, cols, a, n) == Names(cm, cols, b, n)
  {
    if n > 0 {
      assert a[..n - 1] == a[..n][..n - 1] && b[..n - 1] == b[..n][..n - 1];
      assert a[n - 1] == a[..n][n - 1];
      assert b[n - 1] == b[..n][n - 1];
      NamesPrefixStable(cm, cols, a, b, n - 1);
    }
  }

  // ---------------------------------------------------------------------------
  // transform: rows

  function Sum(s: seq<real>): real
  {
    if s == [] then 0.0 else Sum(s[..|s| - 1]) + s[|s| - 1]
  }

  /** Replacing one element changes the sum by the difference. */
  lemma {:induction false} SumUpdate(s: seq<real>, i: nat, x: real)
    requires i < |s|
    ensures Sum(s[i := x]) == Sum(s) - s[i] + x
    decreases |s|
  {
    var n := |s| - 1;
    assert s[i := x][..n] == if i < n then s[..n][i := x] else s[..n];
    if i < n {
      SumUpdate(s[..n], i, x);
    }
  }

  lemma {:induction false} SumZeros(n: nat)
    ensures Sum(seq(n, _ => 0.0)) == 0.0
  {
    if n > 0 {
      assert seq(n, _ => 0.0)[..n - 1] == seq(n - 1, _ => 0.0);
      SumZeros(n - 1);
    }
  }

  /** The indicator block of a categorical value in a column with map m: |m| entries,
      a single 1.0 at the value's index when it was seen during fit, otherwise all 0.0. */
  function Indicator(m: map<string, nat>, v: string): (r: seq<real>)
    requires InRange(m)
    ensures |r| == |m|
    ensures forall i :: 0 <= i < |r| ==> r[i] == if v in m && i == m[v] then 1.0 else 0.0
    ensures Sum(r) == if v in m then 1.0 else 0.0
  {
    var encoded := seq(|m|, _ => 0.0);
    SumZeros(|m|);
    if v in m then
      SumUpdate(encoded, m[v], 1.0);
      encoded[m[v] := 1.0]
    else encoded
  }

  /** What one cell contributes to its output row. */
  function EncodeCell(cm: CategoryMap, col: string, v: MixedDataValue): (r: seq<real>)
    requires forall c :: c in cm ==> InRange(cm[c])
    ensures v.Numeric? ==> r == [v.number]
    ensures v.Categorical? && col !in cm ==> r == []
    ensures v.Categorical? && col in cm ==>
      |r| == |cm[col]| && Sum(r) == (if v.category in cm[col] then 1.0 else 0.0)
  {
    match v
    case Numeric(x) => [x]
    case Categorical(s) => if col in cm then Indicator(cm[col], s) else []
  }

  /** How many values one cell contributes. */
  function CellWidth(cm: CategoryMap, col: string, v: MixedDataValue): nat
  {
    match v
    case Numeric(_) => 1
    case Categorical(_) => if col in cm then |cm[col]| else 0
  }

  function RowWidth(cm: CategoryMap, cols: seq<string>, row: seq<MixedDataValue>, n: nat): nat
    requires n <= |row| <= |cols|
  {
    if n == 0 then 0 else RowWidth(cm, cols, row, n - 1) + CellWidth(cm, cols[n - 1], row[n - 1])
  }

  /** The output row for the first n cells of a row: the cells' contributions in order. */
  function EncodeRow(cm: CategoryMap, cols: seq<string>, row: seq<MixedDataValue>, n: nat): (r: seq<real>)
    requires forall c :: c in cm ==> InRange(cm[c])
    requires n <= |row| <= |cols|
    ensures |r| == RowWidth(cm, cols, row, n)
  {
    if n == 0 then [] else EncodeRow(cm, cols, row, n - 1) + EncodeCell(cm, cols[n - 1], row[n - 1])
  }

  /** The loop over one row's cells: a categorical cell in a column with a map pushes a
      zero block with 1.0 at the value's index if it has one; a categorical cell in a
      column without a map pushes nothing; a numeric cell pushes its value. */
  method TransformRow(cm: CategoryMap, cols: seq<string>, row: seq<MixedDataValue>) returns (newRow: seq<real>)
    requires forall c :: c in cm ==> InRange(cm[c])
    requires |row| <= |cols|
    ensures newRow == EncodeRow(cm, cols, row, |row|)
  {
    newRow := [];
    var colIndex := 0;
    while colIndex < |row|
      invariant 0 <= colIndex <= |row|
      invariant newRow == EncodeRow(cm, cols, row, colIndex)
    {
      var encoded := TransformCell(cm, cols[colIndex], row[colIndex]);
      assert EncodeRow(cm, cols, row, colIndex + 1) == newRow + encoded;
      newRow := newRow + encoded;
      colIndex := colIndex + 1;
    }
  }

  /** The body of the cell loop: a categorical cell in a column with a map gives a zero
      block with 1.0 at the value's index if it has one; a categorical cell in a column
      without a map gives nothing; a numeric cell gives its value. */
  method TransformCell(cm: CategoryMap, colName: string, value: MixedDataValue) returns (encoded: seq<real>)
    requires forall c :: c in cm ==> InRange(cm[c])
    ensures encoded == EncodeCell(cm, colName, value)
  {
    match value {
      case Categorical(val) =>
        encoded := [];
        if colName in cm {
          var colMap := cm[colName];
          encoded := seq(|colMap|, _ => 0.0);
          if val in colMap {
            encoded := encoded[colMap[val] := 1.0];
          }
          assert encoded == Indicator(colMap, val);
        }
      case Numeric(num) =>
        encoded := [num];
    }
  }

  /** Every encoded row of the data, in order. */
  function EncodedRows(cm: CategoryMap, cols: seq<string>, data: seq<seq<MixedDataValue>>): (rs: seq<seq<real>>)
    requires forall c :: c in cm ==> InRange(cm[c])
    requires forall i :: 0 <= i < |data| ==> |data[i]| <= |cols|
    ensures |rs| == |data|
  {
    seq(|data|, i requires 0 <= i < |data| => EncodeRow(cm, cols, data[i], |data[i]|))
  }

  /** The loop of `transform` over the rows. */
  method TransformRows(cm: CategoryMap, cols: seq<string>, data: seq<seq<MixedDataValue>>) returns (rows: seq<seq<real>>)
    requires forall c :: c in cm ==> InRange(cm[c])
    requires forall i :: 0 <= i < |data| ==> |data[i]| <= |cols|
    ensures rows == EncodedRows(cm, cols, data)
  {
    rows := [];
    var i := 0;
    while i < |data|
      invariant 0 <= i <= |data|
      invariant |rows| == i
      invariant forall k :: 0 <= k < i ==> rows[k] == EncodeRow(cm, cols, data[k], |data[k]|)
    {
      var newRow := TransformRow(cm, cols, data[i]);
      rows := rows + [newRow];
      i := i + 1;
    }
  }

  /** Every row encodes to the same number of values as the first one. */
  predicate SameWidth(cm: CategoryMap, cols: seq<string>, data: seq<seq<MixedDataValue>>)
    requires |data| > 0 && forall i :: 0 <= i < |data| ==> |data[i]| <= |cols|
  {
    forall i :: 0 <= i < |data| ==>
      RowWidth(cm, cols, data[i], |data[i]|) == RowWidth(cm, cols, data[0], |data[0]|)
  }

  /** `transform`: the output names, one output row per input row, and a matrix of
      those rows with the first row's width; targets and target column are copied.
      The source panics on an input without rows (`transformed_data[0]`), on a row
      longer than the column list, and when the rows' widths do not fill the matrix;
      the preconditions rule these out. The key order of each column is returned as a
      ghost result, since `map.keys()` visits keys in no promised order. */
  method Transform<Y>(encoder: OneHotEncoder, input: MixedDataset<Y>)
    returns (r: Result<Dataset<Matrix, seq<Y>>>, ghost orders: seq<seq<string>>)
    requires forall c :: c in encoder.fitter.categoryMap ==> InRange(encoder.fitter.categoryMap[c])
    requires forall i :: 0 <= i < |input.data| ==> |input.data[i]| <= |input.dataColumns|
    requires |input.data| > 0
    requires SameWidth(encoder.fitter.categoryMap, input.dataColumns, input.data)
    ensures r.Success?
    ensures r.value.target == input.target && r.value.targetColumn == input.targetColumn
    ensures |orders| == |input.dataColumns|
    ensures forall c :: 0 <= c < |input.dataColumns| && input.dataColumns[c] in encoder.fitter.categoryMap ==>
              Enumerates(orders[c], encoder.fitter.categoryMap[input.dataColumns[c]].Keys)
    ensures r.value.dataColumns == Names(encoder.fitter.categoryMap, input.dataColumns, orders, |input.dataColumns|)
    ensures |r.value.dataColumns| == NameCount(encoder.fitter.categoryMap, input.dataColumns, |input.dataColumns|)
    ensures MatrixValid(r.value.data) && r.value.data.rows == |input.data|
    ensures r.value.data.cols == RowWidth(encoder.fitter.categoryMap, input.dataColumns, input.data[0], |input.data[0]|)
    ensures Rows(r.value.data) == EncodedRows(encoder.fitter.categoryMap, input.dataColumns, input.data)
  {
    var cm := encoder.fitter.categoryMap;
    var newColumnNames;
    newColumnNames, orders := ColumnNames(cm, input.dataColumns);
    var transformedData := TransformRows(cm, input.dataColumns, input.data);
    var rowDimension := |transformedData|;
    var columnDimension := |transformedData[0]|;
    assert AllOfWidth(transformedData, columnDimension);
    RowsOfFlatten(transformedData, columnDimension);
    var data := Matrix(rowDimension, columnDimension, Flatten(transformedData));
    r := Success(Datasets.New(data, input.target, newColumnNames, input.targetColumn));
  }

  // ---------------------------------------------------------------------------
  // Laws relating fit and transform

  /** Each column holds one kind of cell across all rows, as mixed ingestion produces. */
  predicate ColumnTyped(data: seq<seq<MixedDataValue>>, width: nat)
  {
    && (forall i :: 0 <= i < |data| ==> |data[i]| == width)
    && (forall i, c :: 0 <= i < |data| && 0 <= c < width ==> data[i][c].Numeric? == data[0][c].Numeric?)
  }

  /** A category occurring in column c is among that column's categories. */
  lemma {:induction false} CategoryInColumn(data: seq<seq<MixedDataValue>>, c: nat, i: nat)
    requires RowsCover(data, c + 1) && i < |data| && data[i][c].Categorical?
    ensures data[i][c].category in ColumnCategories(data, c)
    decreases |data|
  {
    if i < |data| - 1 {
      CategoryInColumn(data[..|data| - 1], c, i);
    }
  }

  /** Fit then transform on the same data (distinct column names): every categorical
      cell finds its column's map and its category in it, so its indicator block holds
      exactly one 1.0 and sums to 1. */
  lemma FittedCellsSeen(cols: seq<string>, data: seq<seq<MixedDataValue>>, i: nat, c: nat)
    requires RowsCover(data, |cols|) && i < |data| && c < |cols|
    requires forall a, b :: 0 <= a < b < |cols| ==> cols[a] != cols[b]
    requires data[i][c].Categorical?
    ensures var cm := CategoryMapOf(cols, data, |cols|);
      && cols[c] in cm && data[i][c].category in cm[cols[c]]
      && (forall k :: k in cm ==> InRange(cm[k]))
      && Sum(EncodeCell(cm, cols[c], data[i][c])) == 1.0
  {
    var cm := CategoryMapOf(cols, data, |cols|);
    CategoryInColumn(data, c, i);
    CategoryMapAt(cols, data, |cols|, c);
    CodesKeys(ColumnCategories(data, c));
    CategoryMapWellFormed(cols, data, |cols|);
  }

  /** For column-typed data every row encodes to the same width, so the rows fill the
      output matrix whatever the encoder. */
  lemma {:induction false} ColumnTypedSameWidth(cm: CategoryMap, cols: seq<string>, data: seq<seq<MixedDataValue>>)
    requires |data| > 0 && ColumnTyped(data, |cols|)
    ensures SameWidth(cm, cols, data)
  {
    forall i | 0 <= i < |data|
      ensures RowWidth(cm, cols, data[i], |data[i]|) == RowWidth(cm, cols, data[0], |data[0]|)
    {
      var n := 0;
      while n < |cols|
        invariant 0 <= n <= |cols|
        invariant RowWidth(cm, cols, data[i], n) == RowWidth(cm, cols, data[0], n)
      {
        assert data[i][n].Numeric? == data[0][n].Numeric?;
        n := n + 1;
      }
    }
  }

  /** The number of output columns predicted from the data alone: one per numeric
      column plus, per categorical column, its number of distinct categories. */
  function ExpectedWidth(data: seq<seq<MixedDataValue>>, width: nat, n: nat): nat
    requires |data| > 0 && RowsCover(data, width) && n <= width
  {
    if n == 0 then 0
    else
      ExpectedWidth(data, width, n - 1)
        + (if data[0][n - 1].Numeric? then 1 else |Codes(ColumnCategories(data, n - 1))|)
  }

  /** One column's share of the column-count law. */
  lemma ColumnWidth(cols: seq<string>, data: seq<seq<MixedDataValue>>, cm: CategoryMap, n: nat)
    requires |data| > 0 && ColumnTyped(data, |cols|) && n < |cols|
    requires forall a, b :: 0 <= a < b < |cols| ==> cols[a] != cols[b]
    requires cm == CategoryMapOf(cols, data, |cols|)
    ensures var w := if data[0][n].Numeric? then 1 else |Codes(ColumnCategories(data, n))|;
      && (if cols[n] in cm then |cm[cols[n]]| else 1) == w
      && CellWidth(cm, cols[n], data[0][n]) == w
  {
    CategoryMapAt(cols, data, |cols|, n);
    NoCategoriesIffNumeric(data, n);
    if !data[0][n].Numeric? {
      CodesKeys(ColumnCategories(data, n));
    }
  }

  /** The column-count law for the first n columns. */
  lemma {:induction false} WidthUpTo(cols: seq<string>, data: seq<seq<MixedDataValue>>, cm: CategoryMap, n: nat)
    requires |data| > 0 && ColumnTyped(data, |cols|) && n <= |cols|
    requires forall a, b :: 0 <= a < b < |cols| ==> cols[a] != cols[b]
    requires cm == CategoryMapOf(cols, data, |cols|)
    ensures NameCount(cm, cols, n) == ExpectedWidth(data, |cols|, n)
    ensures RowWidth(cm, cols, data[0], n) == ExpectedWidth(data, |cols|, n)
  {
    if n > 0 {
      WidthUpTo(cols, data, cm, n - 1);
      ColumnWidth(cols, data, cm, n - 1);
    }
  }

  /** The column-count law: fitting on column-typed data with distinct column names
      and transforming the same data gives n + c1 + ... + ck output names and as many
      values per row, for n numeric columns and k categorical columns with c1 .. ck
      distinct categories. */
  lemma FitTransformWidth(cols: seq<string>, data: seq<seq<MixedDataValue>>)
    requires |data| > 0 && ColumnTyped(data, |cols|)
    requires forall a, b :: 0 <= a < b < |cols| ==> cols[a] != cols[b]
    ensures var cm := CategoryMapOf(cols, data, |cols|);
      && NameCount(cm, cols, |cols|) == ExpectedWidth(data, |cols|, |cols|)
      && RowWidth(cm, cols, data[0], |cols|) == ExpectedWidth(data, |cols|, |cols|)
  {
    WidthUpTo(cols, data, CategoryMapOf(cols, data, |cols|), |cols|);
  }
}
