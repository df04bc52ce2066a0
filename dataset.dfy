/** Datasets and CSV ingestion (src/dataset/mod.rs).

    The dense matrix of the linear-algebra crate is modelled as a row-major buffer of
    reals with its dimensions; `Dataset` and `MixedDataset` are plain value types.
    `from_csv` is modelled after the file has been opened and tokenised: it receives
    the header row, the records as string cells, and the two cell parsers. */
module Datasets {
  import opened Base

  /** A `rows` x `cols` matrix stored row-major. */
  datatype Matrix = Matrix(rows: nat, cols: nat, values: seq<real>)

  /** The size check `Matrix::new` makes on its buffer. */
  predicate MatrixValid(m: Matrix)
  {
    |m.values| == m.rows * m.cols
  }

  lemma MulMono(a: nat, b: nat, c: nat)
    requires a <= b
    ensures a * c <= b * c
  {
  }

  /** Row i occupies positions i*cols .. i*cols+cols of the buffer. */
  lemma RowInBuffer(m: Matrix, i: nat)
    requires MatrixValid(m) && i < m.rows
    ensures i * m.cols + m.cols <= |m.values|
  {
    MulMono(i + 1, m.rows, m.cols);
  }

  /** Row i of the matrix. */
  function Row(m: Matrix, i: nat): (r: seq<real>)
    requires MatrixValid(m) && i < m.rows
    ensures |r| == m.cols
  {
    RowInBuffer(m, i);
    m.values[i * m.cols .. i * m.cols + m.cols]
  }

  /** The element at row i, column j. */
  function At(m: Matrix, i: nat, j: nat): real
    requires MatrixValid(m) && i < m.rows && j < m.cols
  {
    Row(m, i)[j]
  }

  /** The matrix as its sequence of rows (what `row_iter` walks). */
  function Rows(m: Matrix): (rs: seq<seq<real>>)
    requires MatrixValid(m)
    ensures |rs| == m.rows
  {
    seq(m.rows, i requires 0 <= i < m.rows => Row(m, i))
  }

  /** Rows concatenated in order: the row-major flattening of `flatten().collect()`. */
  function Flatten(rs: seq<seq<real>>): seq<real>
  {
    if rs == [] then [] else Flatten(rs[..|rs| - 1]) + rs[|rs| - 1]
  }

  predicate AllOfWidth(rs: seq<seq<real>>, w: nat)
  {
    forall i :: 0 <= i < |rs| ==> |rs[i]| == w
  }

  lemma {:induction false} FlattenLength(rs: seq<seq<real>>, w: nat)
    requires AllOfWidth(rs, w)
    ensures |Flatten(rs)| == |rs| * w
    decreases |rs|
  {
    if rs != [] {
      FlattenLength(rs[..|rs| - 1], w);
    }
  }

  /** Flattening distributes over concatenation. */
  lemma {:induction false} FlattenAppend(a: seq<seq<real>>, b: seq<seq<real>>)
    ensures Flatten(a + b) == Flatten(a) + Flatten(b)
    decreases |b|
  {
    if b == [] {
      assert a + b == a;
    } else {
      var b' := b[..|b| - 1];
      FlattenAppend(a, b');
      assert (a + b)[..|a + b| - 1] == a + b';
      assert (a + b)[|a + b| - 1] == b[|b| - 1];
    }
  }

  /** Row i sits between the rows before it and the rows after it. */
  lemma FlattenAround(rs: seq<seq<real>>, i: nat)
    requires i < |rs|
    ensures Flatten(rs) == Flatten(rs[..i]) + rs[i] + Flatten(rs[i + 1..])
  {
    var q := rs[..i + 1];
    assert rs == q + rs[i + 1..];
    FlattenAppend(q, rs[i + 1..]);
    assert q[..|q| - 1] == rs[..i] && q[|q| - 1] == rs[i];
    assert Flatten(q) == Flatten(rs[..i]) + rs[i];
  }

  lemma SliceMiddle(a: seq<real>, b: seq<real>, c: seq<real>)
    ensures (a + b + c)[|a| .. |a| + |b|] == b
  {
  }

  /** Row i of the flattened rows sits at positions i*w .. i*w+w. */
  lemma FlattenSlice(rs: seq<seq<real>>, w: nat, i: nat)
    requires AllOfWidth(rs, w) && i < |rs|
    ensures i * w + w <= |Flatten(rs)|
    ensures Flatten(rs)[i * w .. i * w + w] == rs[i]
  {
    FlattenAround(rs, i);
    assert AllOfWidth(rs[..i], w);
    FlattenLength(rs[..i], w);
    SliceMiddle(Flatten(rs[..i]), rs[i], Flatten(rs[i + 1..]));
  }

  /** Flattening rows of one width fills a buffer of the right size, and cutting that
      buffer into rows gives back the rows. */
  lemma RowsOfFlatten(rs: seq<seq<real>>, w: nat)
    requires AllOfWidth(rs, w)
    ensures MatrixValid(Matrix(|rs|, w, Flatten(rs)))
    ensures Rows(Matrix(|rs|, w, Flatten(rs))) == rs
  {
    FlattenLength(rs, w);
    var m := Matrix(|rs|, w, Flatten(rs));
    forall i | 0 <= i < |rs| ensures Rows(m)[i] == rs[i] {
      FlattenSlice(rs, w, i);
    }
  }

  /** Cutting a valid matrix into rows and flattening them gives back its buffer. */
  lemma {:induction false} FlattenRows(m: Matrix)
    requires MatrixValid(m)
    ensures Flatten(Rows(m)) == m.values
  {
    var rs := Rows(m);
    var n := 0;
    while n < m.rows
      invariant 0 <= n <= m.rows
      invariant n * m.cols <= |m.values|
      invariant Flatten(rs[..n]) == m.values[..n * m.cols]
    {
      RowInBuffer(m, n);
      assert rs[..n + 1][..n] == rs[..n];
      assert rs[n] == m.values[n * m.cols .. n * m.cols + m.cols];
      assert m.values[..(n + 1) * m.cols] == m.values[..n * m.cols] + rs[n];
      n := n + 1;
    }
    assert rs[..n] == rs;
  }

  /** `Dataset<X, Y>`: features, targets, feature column names and the target column name. */
  datatype Dataset<X, Y> = Dataset(data: X, target: Y, dataColumns: seq<string>, targetColumn: string)

  /** `Dataset::new`: the getters `data`, `target`, `data_columns` and `target_column`
      (the datatype's fields) return exactly the arguments. */
  function New<X, Y>(data: X, target: Y, dataColumns: seq<string>, targetColumn: string): (d: Dataset<X, Y>)
    ensures d.data == data && d.target == target
    ensures d.dataColumns == dataColumns && d.targetColumn == targetColumn
  {
    Dataset(data, target, dataColumns, targetColumn)
  }

  /** The shape a numeric dataset is meant to have: one target per row, one name per
      column, and the target column is not a feature. */
  predicate WellShaped<Y>(d: Dataset<Matrix, seq<Y>>)
  {
    && MatrixValid(d.data)
    && |d.target| == d.data.rows
    && |d.dataColumns| == d.data.cols
    && d.targetColumn !in d.dataColumns
  }

  /** A cell of a mixed dataset: a number or a category string. */
  datatype MixedDataValue = Numeric(number: real) | Categorical(category: string)

  /** `MixedDataset`: rows of mixed cells, targets, feature column names, target column name. */
  datatype MixedDataset<Y> = MixedDataset(
    data: seq<seq<MixedDataValue>>, target: seq<Y>, dataColumns: seq<string>, targetColumn: string)

  // ---------------------------------------------------------------------------
  // CSV ingestion

  /** The first position of `name` in the header (`position`). */
  function FirstIndex(header: seq<string>, name: string): (i: nat)
    requires name in header
    ensures i < |header| && header[i] == name && name !in header[..i]
  {
    if header[0] == name then 0
    else
      assert header == [header[0]] + header[1..];
      1 + FirstIndex(header[1..], name)
  }

  /** The header with every entry equal to `name` removed, in order. */
  function WithoutColumn(header: seq<string>, name: string): (r: seq<string>)
    ensures name !in r
  {
    if header == [] then []
    else
      assert header == [header[0]] + header[1..];
      (if header[0] == name then [] else [header[0]]) + WithoutColumn(header[1..], name)
  }

  /** The feature names are the header entries other than the target name, and there are
      as many as the header has entries not equal to it. */
  lemma {:induction false} WithoutColumnContents(header: seq<string>, name: string)
    ensures forall x :: x in WithoutColumn(header, name) <==> x in header && x != name
    ensures |WithoutColumn(header, name)| == |header| - multiset(header)[name]
  {
    if header != [] {
      WithoutColumnContents(header[1..], name);
      assert header == [header[0]] + header[1..];
    }
  }

  /** The cells of a record other than the one at the target position. */
  function Features<T>(record: seq<T>, ti: nat): seq<T>
    requires ti < |record|
  {
    record[..ti] + record[ti + 1..]
  }

  /** `parse` accepts every cell of `cells` and yields `values`. */
  predicate ParsedAs(cells: seq<string>, values: seq<real>, parse: string -> Option<real>)
  {
    |cells| == |values| && forall j :: 0 <= j < |cells| ==> parse(cells[j]) == Some(values[j])
  }

  /** A record that loads: the reader accepts its width, its target cell parses as a
      target and every other cell parses as a feature. */
  predicate RecordLoads<Y>(record: seq<string>, width: nat, ti: nat,
                           parseX: string -> Option<real>, parseY: string -> Option<Y>)
  {
    && |record| == width
    && ti < width
    && parseY(record[ti]).Some?
    && forall j :: 0 <= j < |record| && j != ti ==> parseX(record[j]).Some?
  }

  /** Everything `from_csv` needs to succeed. */
  predicate Loads<Y>(header: seq<string>, records: seq<seq<string>>, targetColumn: string,
                     parseX: string -> Option<real>, parseY: string -> Option<Y>)
  {
    && targetColumn in header
    && forall i :: 0 <= i < |records| ==>
         RecordLoads(records[i], |header|, FirstIndex(header, targetColumn), parseX, parseY)
  }

  /** The cells before position `upTo` that `from_csv` has parsed as features. */
  function FeaturesBefore(record: seq<string>, ti: nat, upTo: nat): seq<string>
    requires ti < |record| && upTo <= |record|
  {
    if upTo <= ti then record[..upTo] else record[..ti] + record[ti + 1..upTo]
  }

  /** The loop body of `from_csv` for one record: the cell at the target position is
      parsed as the target, every other cell, in order, as a feature; the first cell
      that does not parse stops the load. */
  method ParseRecord<Y>(record: seq<string>, targetIndex: nat,
                        parseX: string -> Option<real>, parseY: string -> Option<Y>)
    returns (r: Option<(Y, seq<real>)>)
    requires targetIndex < |record|
    ensures r.Some? <==> RecordLoads(record, |record|, targetIndex, parseX, parseY)
    ensures r.Some? ==> parseY(record[targetIndex]) == Some(r.value.0)
    ensures r.Some? ==> ParsedAs(Features(record, targetIndex), r.value.1, parseX)
  {
    var recordFeatures: seq<real> := [];
    var recordTarget: Option<Y> := None;
    var index := 0;
    while index < |record|
      invariant 0 <= index <= |record|
      invariant recordTarget.Some? <==> index > targetIndex
      invariant recordTarget.Some? ==> parseY(record[targetIndex]) == recordTarget
      invariant forall j :: 0 <= j < index && j != targetIndex ==> parseX(record[j]).Some?
      invariant ParsedAs(FeaturesBefore(record, targetIndex, index), recordFeatures, parseX)
    {
      var feature := record[index];
      if index == targetIndex {
        recordTarget := parseY(feature);
        if recordTarget.None? {
          return None;
        }
        assert FeaturesBefore(record, targetIndex, index + 1) == FeaturesBefore(record, targetIndex, index);
      } else {
        var featureValue := parseX(feature);
        if featureValue.None? {
          return None;
        }
        assert FeaturesBefore(record, targetIndex, index + 1)
            == FeaturesBefore(record, targetIndex, index) + [feature];
        recordFeatures := recordFeatures + [featureValue.value];
      }
      index := index + 1;
    }
    assert FeaturesBefore(record, targetIndex, index) == Features(record, targetIndex);
    r := Some((recordTarget.value, recordFeatures));
  }

  /** `Dataset::from_csv` after tokenising. The target column is located in the header;
      every record's target cell becomes its target and its other cells, in order, its
      feature row; the rows are flattened row-major with the first row's width; the
      feature names are the header without the target name. A missing target column,
      a record the reader rejects for its width, or a cell that does not parse gives
      `InvalidData`. With the target column present and no record the source panics
      (`data_rows[0]`), which the precondition rules out. */
  method FromCsv<Y>(header: seq<string>, records: seq<seq<string>>, targetColumn: string,
                    parseX: string -> Option<real>, parseY: string -> Option<Y>)
    returns (r: Result<Dataset<Matrix, seq<Y>>>)
    requires targetColumn in header ==> |records| > 0
    ensures r.Success? <==> Loads(header, records, targetColumn, parseX, parseY)
    ensures r.Failure? ==> r.error == InvalidData
    ensures r.Success? ==>
      var d := r.value;
      var ti := FirstIndex(header, targetColumn);
      && d.targetColumn == targetColumn
      && d.dataColumns == WithoutColumn(header, targetColumn)
      && |d.target| == |records|
      && (forall i :: 0 <= i < |records| ==> parseY(records[i][ti]) == Some(d.target[i]))
      && d.data.rows == |records| && d.data.cols == |header| - 1 && MatrixValid(d.data)
      && (forall i, j :: 0 <= i < d.data.rows && 0 <= j < d.data.cols ==>
            parseX(Features(records[i], ti)[j]) == Some(At(d.data, i, j)))
    ensures r.Success? && multiset(header)[targetColumn] == 1 ==> WellShaped(r.value)
  {
    if targetColumn !in header {
      return Failure(InvalidData);
    }
    var targetIndex := FirstIndex(header, targetColumn);
    var dataRows: seq<seq<real>> := [];
    var targetValues: seq<Y> := [];
    var i := 0;
    while i < |records|
      invariant 0 <= i <= |records|
      invariant |dataRows| == i && |targetValues| == i
      invariant forall k :: 0 <= k < i ==> RecordLoads(records[k], |header|, targetIndex, parseX, parseY)
      invariant forall k :: 0 <= k < i ==> parseY(records[k][targetIndex]) == Some(targetValues[k])
      invariant forall k :: 0 <= k < i ==> ParsedAs(Features(records[k], targetIndex), dataRows[k], parseX)
    {
      var record := records[i];
      if |record| != |header| {
        // the reader rejects a record whose width differs from the header's
        return Failure(InvalidData);
      }
      var parsed := ParseRecord(record, targetIndex, parseX, parseY);
      if parsed.None? {
        return Failure(InvalidData);
      }
      targetValues := targetValues + [parsed.value.0];
      dataRows := dataRows + [parsed.value.1];
      i := i + 1;
    }
    var rowDim := |dataRows|;
    var colDim := |dataRows[0]|;
    var data := Matrix(rowDim, colDim, Flatten(dataRows));
    LoadedMatrix(header, records, targetIndex, dataRows, parseX);
    WithoutColumnContents(header, targetColumn);
    r := Success(New(data, targetValues, WithoutColumn(header, targetColumn), targetColumn));
  }

  /** The flattened feature rows of loaded records form a valid matrix whose element
      (i, j) is the parsed j-th feature cell of record i. */
  lemma LoadedMatrix(header: seq<string>, records: seq<seq<string>>, ti: nat,
                     dataRows: seq<seq<real>>, parseX: string -> Option<real>)
    requires |records| == |dataRows| > 0 && ti < |header|
    requires forall k :: 0 <= k < |records| ==> |records[k]| == |header|
    requires forall k :: 0 <= k < |records| ==> ParsedAs(Features(records[k], ti), dataRows[k], parseX)
    ensures |dataRows[0]| == |header| - 1
    ensures var m := Matrix(|dataRows|, |dataRows[0]|, Flatten(dataRows));
      && MatrixValid(m)
      && forall i, j :: 0 <= i < m.rows && 0 <= j < m.cols ==>
           parseX(Features(records[i], ti)[j]) == Some(At(m, i, j))
  {
    var w := |header| - 1;
    assert AllOfWidth(dataRows, w) by {
      forall k | 0 <= k < |dataRows| ensures |dataRows[k]| == w {
        assert |Features(records[k], ti)| == w;
      }
    }
    RowsOfFlatten(dataRows, w);
    var m := Matrix(|dataRows|, w, Flatten(dataRows));
    forall i, j | 0 <= i < m.rows && 0 <= j < m.cols
      ensures parseX(Features(records[i], ti)[j]) == Some(At(m, i, j))
    {
      assert Rows(m)[i] == dataRows[i];
    }
  }

  /** When the target name occurs once in the header, the feature names are exactly the
      header cells around the target position, so names line up with feature cells. */
  lemma {:induction false} WithoutUniqueColumn(header: seq<string>, name: string)
    requires multiset(header)[name] == 1
    ensures name in header
    ensures WithoutColumn(header, name) == Features(header, FirstIndex(header, name))
  {
    assert name in multiset(header);
    var ti := FirstIndex(header, name);
    assert header == [header[0]] + header[1..];
    if header[0] == name {
      assert multiset(header[1..])[name] == 0;
      WithoutAbsent(header[1..], name);
    } else {
      assert multiset(header[1..])[name] == 1;
      WithoutUniqueColumn(header[1..], name);
      assert FirstIndex(header, name) == 1 + FirstIndex(header[1..], name);
    }
  }

  lemma {:induction false} WithoutAbsent(header: seq<string>, name: string)
    requires name !in header
    ensures WithoutColumn(header, name) == header
  {
    if header != [] {
      WithoutAbsent(header[1..], name);
      assert header == [header[0]] + header[1..];
    }
  }

  /** A header that names the target column twice: the feature names drop both
      occurrences while each record drops only the cell at the first one, so a loaded
      dataset would have two feature columns and one feature name. */
  lemma DuplicateTargetHeader()
    ensures WithoutColumn(["y", "a", "y"], "y") == ["a"]
    ensures |Features(["y", "a", "y"], FirstIndex(["y", "a", "y"], "y"))| == 2
  {
    var h := ["y", "a", "y"];
    assert h[1..] == ["a", "y"] && h[1..][1..] == ["y"] && h[1..][1..][1..] == [];
  }

  /** The iris header: loading it with target "Species" gives the five measurement
      columns in file order and, for well-formed records, five feature columns. */
  lemma IrisColumns()
    ensures var h := ["Id", "SepalLengthCm", "SepalWidthCm", "PetalLengthCm", "PetalWidthCm", "Species"];
      && WithoutColumn(h, "Species") == ["Id", "SepalLengthCm", "SepalWidthCm", "PetalLengthCm", "PetalWidthCm"]
      && FirstIndex(h, "Species") == 5
      && |h| - 1 == 5
  {
    var h := ["Id", "SepalLengthCm", "SepalWidthCm", "PetalLengthCm", "PetalWidthCm", "Species"];
    assert "Species" !in h[..5];
    WithoutAbsent(h[..5], "Species");
    assert h == h[..5] + ["Species"];
    WithoutAppend(h[..5], ["Species"], "Species");
  }

  lemma {:induction false} WithoutAppend(a: seq<string>, b: seq<string>, name: string)
    ensures WithoutColumn(a + b, name) == WithoutColumn(a, name) + WithoutColumn(b, name)
  {
    if a != [] {
      WithoutAppend(a[1..], b, name);
      assert (a + b)[1..] == a[1..] + b;
    } else {
      assert a + b == b;
    }
  }
}
