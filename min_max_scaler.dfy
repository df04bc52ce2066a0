/** The min-max scaler (src/preprocessing/scalers/minmaxscaler.rs): `fit` scans every
    feature column for its minimum and maximum and derives per feature the affine map
    v * scale + constant that sends [min, max] onto [scaled_min, scaled_max];
    `transform` applies it element-wise. Values are reals, not `f64`. */
module MinMaxScaling {
  import opened Base
  import P = Preprocessing
  import opened Datasets

  /** `MinMaxFitter`: the target range, the fitted per-feature vectors and the status. */
  datatype MinMaxFitter = MinMaxFitter(
    numFeatures: nat,
    scaledMin: real,
    scaledMax: real,
    minValues: seq<real>,
    maxValues: seq<real>,
    scaleFactors: seq<real>,
    constantFactors: seq<real>,
    fitStatus: P.FitStatus)

  /** `MinMaxScaler`: a transformer holding the fitter it was made from. */
  datatype MinMaxScaler = MinMaxScaler(fitter: MinMaxFitter)

  /** `MinMaxFitter::new(min, max)`: the target range [min, max], nothing fitted yet. */
  function New(min: real, max: real): (f: MinMaxFitter)
    ensures f.scaledMin == min && f.scaledMax == max
    ensures f.fitStatus == P.NotFit && f.numFeatures == 0
    ensures f.minValues == f.maxValues == f.scaleFactors == f.constantFactors == []
  {
    MinMaxFitter(0, min, max, [], [], [], [], P.NotFit)
  }

  /** `MinMaxFitter::default()`: the same as `new(0.0, 1.0)`. */
  function Default(): (f: MinMaxFitter)
    ensures f == New(0.0, 1.0)
  {
    MinMaxFitter(0, 0.0, 1.0, [], [], [], [], P.DefaultFitStatus())
  }

  /** The running minimum of column c over the first n rows, as the fit loop keeps it:
      `None` stands for the initial `f64::MAX`, which every value replaces. */
  function ScanMin(m: Matrix, c: nat, n: nat): Option<real>
    requires MatrixValid(m) && c < m.cols && n <= m.rows
  {
    if n == 0 then None
    else
      var p := ScanMin(m, c, n - 1);
      var v := At(m, n - 1, c);
      if p.None? || v < p.value then Some(v) else p
  }

  /** The running maximum; `None` stands for the initial `f64::MIN`. */
  function ScanMax(m: Matrix, c: nat, n: nat): Option<real>
    requires MatrixValid(m) && c < m.cols && n <= m.rows
  {
    if n == 0 then None
    else
      var p := ScanMax(m, c, n - 1);
      var v := At(m, n - 1, c);
      if p.None? || v > p.value then Some(v) else p
  }

  /** Over at least one row the scanned minimum is a lower bound of the column's first n
      values and is one of them. */
  lemma {:induction false} ScanMinIsMinimum(m: Matrix, c: nat, n: nat)
    requires MatrixValid(m) && c < m.cols && 0 < n <= m.rows
    ensures ScanMin(m, c, n).Some?
    ensures forall i :: 0 <= i < n ==> ScanMin(m, c, n).value <= At(m, i, c)
    ensures exists i :: 0 <= i < n && At(m, i, c) == ScanMin(m, c, n).value
  {
    if n > 1 {
      ScanMinIsMinimum(m, c, n - 1);
    }
  }

  /** Over at least one row the scanned maximum is an upper bound of the column's first
      n values and is one of them. */
  lemma {:induction false} ScanMaxIsMaximum(m: Matrix, c: nat, n: nat)
    requires MatrixValid(m) && c < m.cols && 0 < n <= m.rows
    ensures ScanMax(m, c, n).Some?
    ensures forall i :: 0 <= i < n ==> At(m, i, c) <= ScanMax(m, c, n).value
    ensures exists i :: 0 <= i < n && At(m, i, c) == ScanMax(m, c, n).value
  {
    if n > 1 {
      ScanMaxIsMaximum(m, c, n - 1);
    }
  }

  /** (scaled_max - scaled_min) / (max - min); a constant column, where `f64` division
      by zero gives an infinity or NaN, gets 0.0. */
  function ScaleFactor(scaledMin: real, scaledMax: real, min: real, max: real): real
  {
    if max == min then 0.0 else (scaledMax - scaledMin) / (max - min)
  }

  /** scaled_min - min * scale_factor: shifts the scaled data to start at scaled_min. */
  function ConstantFactor(scaledMin: real, min: real, scale: real): real
  {
    scaledMin - min * scale
  }

  /** `f` is what fitting on matrix m with target range [smin, smax] produces. */
  ghost predicate FittedOn(f: MinMaxFitter, m: Matrix, numFeatures: nat)
  {
    && MatrixValid(m) && m.rows > 0 && m.cols == numFeatures
    && f.numFeatures == numFeatures
    && |f.minValues| == |f.maxValues| == |f.scaleFactors| == |f.constantFactors| == numFeatures
    && (forall c :: 0 <= c < numFeatures ==>
          && ScanMin(m, c, m.rows) == Some(f.minValues[c])
          && ScanMax(m, c, m.rows) == Some(f.maxValues[c]))
    && (forall c :: 0 <= c < numFeatures ==>
          && f.scaleFactors[c] == ScaleFactor(f.scaledMin, f.scaledMax, f.minValues[c], f.maxValues[c])
          && f.constantFactors[c] == ConstantFactor(f.scaledMin, f.minValues[c], f.scaleFactors[c]))
  }

  /** The nested min/max scan of `fit`, over a matrix whose width is the feature count
      (a wider matrix indexes past the vectors and panics). */
  method ScanColumns(m: Matrix) returns (minValues: seq<real>, maxValues: seq<real>)
    requires MatrixValid(m) && m.rows > 0
    ensures |minValues| == |maxValues| == m.cols
    ensures forall c :: 0 <= c < m.cols ==> ScanMin(m, c, m.rows) == Some(minValues[c])
    ensures forall c :: 0 <= c < m.cols ==> ScanMax(m, c, m.rows) == Some(maxValues[c])
  {
    var mins: seq<Option<real>> := seq(m.cols, _ => None);
    var maxs: seq<Option<real>> := seq(m.cols, _ => None);
    var r := 0;
    while r < m.rows
      invariant 0 <= r <= m.rows
      invariant |mins| == |maxs| == m.cols
      invariant forall c :: 0 <= c < m.cols ==> mins[c] == ScanMin(m, c, r) && maxs[c] == ScanMax(m, c, r)
    {
      var row := Row(m, r);
      var idx := 0;
      while idx < |row|
        invariant 0 <= idx <= |row|
        invariant |mins| == |maxs| == m.cols
        invariant forall c :: 0 <= c < idx ==> mins[c] == ScanMin(m, c, r + 1) && maxs[c] == ScanMax(m, c, r + 1)
        invariant forall c :: idx <= c < m.cols ==> mins[c] == ScanMin(m, c, r) && maxs[c] == ScanMax(m, c, r)
      {
        var value := row[idx];
        assert value == At(m, r, idx);
        if mins[idx].None? || value < mins[idx].value {
          mins := mins[idx := Some(value)];
        }
        if maxs[idx].None? || value > maxs[idx].value {
          maxs := maxs[idx := Some(value)];
        }
        idx := idx + 1;
      }
      r := r + 1;
    }
    minValues := seq(m.cols, c requires 0 <= c < m.cols => ScanMinIsSome(m, c); mins[c].value);
    maxValues := seq(m.cols, c requires 0 <= c < m.cols => ScanMaxIsSome(m, c); maxs[c].value);
  }

  lemma ScanMinIsSome(m: Matrix, c: nat)
    requires MatrixValid(m) && c < m.cols && m.rows > 0
    ensures ScanMin(m, c, m.rows).Some?
  {
    ScanMinIsMinimum(m, c, m.rows);
  }

  lemma ScanMaxIsSome(m: Matrix, c: nat)
    requires MatrixValid(m) && c < m.cols && m.rows > 0
    ensures ScanMax(m, c, m.rows).Some?
  {
    ScanMaxIsMaximum(m, c, m.rows);
  }

  /** `fit`: records the feature count, scans the column minima and maxima, then derives
      each feature's scale and constant factor; the target range is kept and the status
      becomes `Fit`. Needs at least one row (otherwise the sentinels `f64::MAX` and
      `f64::MIN` would be kept as bounds) and a matrix as wide as the feature list. */
  method Fit<Y>(fitter: MinMaxFitter, input: Dataset<Matrix, Y>) returns (r: Result<MinMaxScaler>)
    requires MatrixValid(input.data) && input.data.rows > 0
    requires input.data.cols == |input.dataColumns|
    ensures r.Success?
    ensures r.value.fitter.scaledMin == fitter.scaledMin && r.value.fitter.scaledMax == fitter.scaledMax
    ensures r.value.fitter.fitStatus == P.Fit
    ensures FittedOn(r.value.fitter, input.data, |input.dataColumns|)
  {
    var numFeatures := |input.dataColumns|;
    var minValues, maxValues := ScanColumns(input.data);
    var scaleFactors: seq<real> := seq(numFeatures, _ => 0.0);
    var constantFactors: seq<real> := seq(numFeatures, _ => 0.0);
    for i := 0 to numFeatures
      invariant |scaleFactors| == |constantFactors| == numFeatures
      invariant forall c :: 0 <= c < i ==>
        && scaleFactors[c] == ScaleFactor(fitter.scaledMin, fitter.scaledMax, minValues[c], maxValues[c])
        && constantFactors[c] == ConstantFactor(fitter.scaledMin, minValues[c], scaleFactors[c])
    {
      var scaleFactor := ScaleFactor(fitter.scaledMin, fitter.scaledMax, minValues[i], maxValues[i]);
      scaleFactors := scaleFactors[i := scaleFactor];
      constantFactors := constantFactors[i := ConstantFactor(fitter.scaledMin, minValues[i], scaleFactor)];
    }
    var f := MinMaxFitter(numFeatures, fitter.scaledMin, fitter.scaledMax,
                          minValues, maxValues, scaleFactors, constantFactors, P.Fit);
    r := Success(MinMaxScaler(f));
  }

  /** After fitting, each feature's recorded minimum and maximum bound every value of
      that column and are attained by some row. */
  lemma FittedBounds(f: MinMaxFitter, m: Matrix, c: nat)
    requires FittedOn(f, m, f.numFeatures) && c < f.numFeatures
    ensures forall i :: 0 <= i < m.rows ==> f.minValues[c] <= At(m, i, c) <= f.maxValues[c]
    ensures exists i :: 0 <= i < m.rows && At(m, i, c) == f.minValues[c]
    ensures exists i :: 0 <= i < m.rows && At(m, i, c) == f.maxValues[c]
  {
    ScanMinIsMinimum(m, c, m.rows);
    ScanMaxIsMaximum(m, c, m.rows);
  }

  /** The boundary law: for a feature whose maximum differs from its minimum, the
      minimum is mapped to scaled_min and the maximum to scaled_max. */
  lemma BoundaryLaw(scaledMin: real, scaledMax: real, min: real, max: real)
    requires min != max
    ensures var a := ScaleFactor(scaledMin, scaledMax, min, max);
      var b := ConstantFactor(scaledMin, min, a);
      min * a + b == scaledMin && max * a + b == scaledMax
  {
    var a := ScaleFactor(scaledMin, scaledMax, min, max);
    assert (max - min) * a == scaledMax - scaledMin;
    assert max * a - min * a == (max - min) * a;
  }

  /** The image of a value equal to the minimum or to the maximum, when the factors are
      the fitted ones. */
  lemma BoundaryImages(scaledMin: real, scaledMax: real, min: real, max: real, a: real, b: real, u: real, w: real)
    requires min != max && u == min && w == max
    requires a == ScaleFactor(scaledMin, scaledMax, min, max) && b == ConstantFactor(scaledMin, min, a)
    ensures u * a + b == scaledMin && w * a + b == scaledMax
  {
    BoundaryLaw(scaledMin, scaledMax, min, max);
  }

  /** The rows attaining a fitted feature's minimum and maximum. */
  lemma BoundaryRows(f: MinMaxFitter, m: Matrix, c: nat) returns (lo: nat, hi: nat)
    requires FittedOn(f, m, f.numFeatures) && c < f.numFeatures
    ensures lo < m.rows && hi < m.rows
    ensures At(m, lo, c) == f.minValues[c] && At(m, hi, c) == f.maxValues[c]
    ensures f.scaleFactors[c] == ScaleFactor(f.scaledMin, f.scaledMax, f.minValues[c], f.maxValues[c])
    ensures f.constantFactors[c] == ConstantFactor(f.scaledMin, f.minValues[c], f.scaleFactors[c])
  {
    FittedBounds(f, m, c);
    lo :| 0 <= lo < m.rows && At(m, lo, c) == f.minValues[c];
    hi :| 0 <= hi < m.rows && At(m, hi, c) == f.maxValues[c];
  }

  /** The boundary law on a fitted scaler: when a feature's maximum differs from its
      minimum, the row lo attaining the minimum is mapped to scaled_min and the row hi
      attaining the maximum to scaled_max. */
  lemma FittedBoundaryLaw(f: MinMaxFitter, m: Matrix, c: nat) returns (lo: nat, hi: nat)
    requires FittedOn(f, m, f.numFeatures) && c < f.numFeatures
    requires f.minValues[c] != f.maxValues[c]
    ensures lo < m.rows && hi < m.rows
    ensures At(m, lo, c) == f.minValues[c] && At(m, hi, c) == f.maxValues[c]
    ensures At(m, lo, c) * f.scaleFactors[c] + f.constantFactors[c] == f.scaledMin
    ensures At(m, hi, c) * f.scaleFactors[c] + f.constantFactors[c] == f.scaledMax
  {
    lo, hi := BoundaryRows(f, m, c);
    BoundaryImages(f.scaledMin, f.scaledMax, f.minValues[c], f.maxValues[c],
      f.scaleFactors[c], f.constantFactors[c], At(m, lo, c), At(m, hi, c));
  }

  /** With scaled_min <= scaled_max, every value between a feature's minimum and maximum
      is mapped into [scaled_min, scaled_max]. A constant column is mapped to scaled_min
      only because the model's scale factor for it is 0.0; in `f64` it becomes NaN or an
      infinity. */
  lemma ScaledIntoRange(scaledMin: real, scaledMax: real, min: real, max: real, v: real)
    requires scaledMin <= scaledMax && min <= v <= max
    ensures var a := ScaleFactor(scaledMin, scaledMax, min, max);
      var b := ConstantFactor(scaledMin, min, a);
      scaledMin <= v * a + b <= scaledMax
      && (min == max ==> v * a + b == scaledMin)
  {
    var a := ScaleFactor(scaledMin, scaledMax, min, max);
    var b := ConstantFactor(scaledMin, min, a);
    assert v * a + b == scaledMin + (v - min) * a;
    if min != max {
      assert a >= 0.0;
      assert (v - min) * a <= (max - min) * a;
      assert (max - min) * a == scaledMax - scaledMin;
    }
  }

  /** The scaler's vectors have one entry per fitted feature, as `fit` leaves them. */
  ghost predicate ScalerValid(s: MinMaxScaler)
  {
    |s.fitter.scaleFactors| == |s.fitter.constantFactors| == s.fitter.numFeatures
  }

  /** One row scaled element-wise. */
  function ScaleRow(row: seq<real>, scale: seq<real>, constant: seq<real>): (r: seq<real>)
    requires |row| <= |scale| && |row| <= |constant|
    ensures |r| == |row|
  {
    seq(|row|, j requires 0 <= j < |row| => row[j] * scale[j] + constant[j])
  }

  /** Every row of m scaled element-wise. */
  function ScaledRows(m: Matrix, scale: seq<real>, constant: seq<real>): (rs: seq<seq<real>>)
    requires MatrixValid(m)
    requires m.rows > 0 ==> m.cols <= |scale| && m.cols <= |constant|
    ensures |rs| == m.rows && AllOfWidth(rs, m.cols)
  {
    seq(m.rows, k requires 0 <= k < m.rows => ScaleRow(Row(m, k), scale, constant))
  }

  /** The inner loop of `transform`: push every value of one row, scaled. */
  method PushScaledRow(scaledData: seq<real>, row: seq<real>, scale: seq<real>, constant: seq<real>)
    returns (out: seq<real>)
    requires |row| <= |scale| && |row| <= |constant|
    ensures out == scaledData + ScaleRow(row, scale, constant)
  {
    out := scaledData;
    ghost var rowOut: seq<real> := [];
    var idx := 0;
    while idx < |row|
      invariant 0 <= idx <= |row|
      invariant out == scaledData + rowOut
      invariant |rowOut| == idx
      invariant forall j :: 0 <= j < idx ==> rowOut[j] == row[j] * scale[j] + constant[j]
    {
      var value := row[idx];
      var scaledValue := value * scale[idx] + constant[idx];
      out := out + [scaledValue];
      rowOut := rowOut + [scaledValue];
      idx := idx + 1;
    }
    ghost var expected := ScaleRow(row, scale, constant);
    assert |rowOut| == |expected| && forall j :: 0 <= j < |row| ==> rowOut[j] == expected[j];
    assert rowOut == expected;
  }

  /** The outer loop of `transform`: the rows of m, scaled, pushed row after row. */
  method ScaleData(m: Matrix, scale: seq<real>, constant: seq<real>) returns (scaledData: seq<real>)
    requires MatrixValid(m)
    requires m.rows > 0 ==> m.cols <= |scale| && m.cols <= |constant|
    ensures scaledData == Flatten(ScaledRows(m, scale, constant))
  {
    ghost var all := ScaledRows(m, scale, constant);
    scaledData := [];
    var i := 0;
    while i < m.rows
      invariant 0 <= i <= m.rows
      invariant scaledData == Flatten(all[..i])
    {
      var row := Row(m, i);
      scaledData := PushScaledRow(scaledData, row, scale, constant);
      assert all[i] == ScaleRow(row, scale, constant);
      ghost var next := all[..i + 1];
      assert next[..i] == all[..i] && next[i] == all[i];
      assert Flatten(next) == Flatten(all[..i]) + all[i];
      i := i + 1;
    }
    assert all[..i] == all;
  }

  /** `transform`: `InvalidState` when the fitted feature count differs from the number
      of feature names of the input (the matrix width is not checked); otherwise a new
      dataset whose element (i, j) is input(i, j) * scale[j] + constant[j], with the
      targets and both kinds of column names copied. When the names pass the check but
      the matrix has rows and another width, the source panics; the precondition rules
      that out. */
  method Transform<Y>(scaler: MinMaxScaler, input: Dataset<Matrix, Y>) returns (r: Result<Dataset<Matrix, Y>>)
    requires ScalerValid(scaler) && MatrixValid(input.data)
    requires |input.dataColumns| == scaler.fitter.numFeatures && input.data.rows > 0
             ==> input.data.cols == scaler.fitter.numFeatures
    ensures r.Failure? <==> scaler.fitter.numFeatures != |input.dataColumns|
    ensures r.Failure? ==> r.error == InvalidState
    ensures r.Success? ==>
      && r.value.target == input.target
      && r.value.dataColumns == input.dataColumns
      && r.value.targetColumn == input.targetColumn
      && MatrixValid(r.value.data)
      && r.value.data.rows == input.data.rows
      && r.value.data.cols == scaler.fitter.numFeatures
      && (input.data.rows > 0 ==> r.value.data.cols == input.data.cols)
      && forall i, j :: 0 <= i < input.data.rows && 0 <= j < input.data.cols ==>
           At(r.value.data, i, j) == At(input.data, i, j) * scaler.fitter.scaleFactors[j] + scaler.fitter.constantFactors[j]
  {
    var fitter := scaler.fitter;
    var numFeatures := fitter.numFeatures;
    if numFeatures != |input.dataColumns| {
      return Failure(InvalidState);
    }
    var numRows := input.data.rows;
    var scaledData := ScaleData(input.data, fitter.scaleFactors, fitter.constantFactors);
    var scaledMatrix := Matrix(numRows, numFeatures, scaledData);
    ScaledMatrix(input.data, fitter.scaleFactors, fitter.constantFactors, numFeatures);
    r := Success(Datasets.New(scaledMatrix, input.target, input.dataColumns, input.targetColumn));
  }

  /** The flattened scaled rows, read as a matrix of width `numFeatures`, hold at (i, j)
      the scaled element (i, j) of m. */
  lemma ScaledMatrix(m: Matrix, scale: seq<real>, constant: seq<real>, numFeatures: nat)
    requires MatrixValid(m)
    requires m.rows > 0 ==> m.cols == numFeatures <= |scale| && numFeatures <= |constant|
    ensures var s := Matrix(m.rows, numFeatures, Flatten(ScaledRows(m, scale, constant)));
      && MatrixValid(s)
      && forall i, j :: 0 <= i < m.rows && 0 <= j < m.cols ==> At(s, i, j) == At(m, i, j) * scale[j] + constant[j]
  {
    var rs := ScaledRows(m, scale, constant);
    var w := if m.rows > 0 then m.cols else numFeatures;
    RowsOfFlatten(rs, w);
    var s := Matrix(m.rows, numFeatures, Flatten(rs));
    forall i, j | 0 <= i < m.rows && 0 <= j < m.cols
      ensures At(s, i, j) == At(m, i, j) * scale[j] + constant[j]
    {
      ScaledElement(m, scale, constant, s, i, j);
    }
  }

  /** One element of a matrix whose rows are the scaled rows of m. */
  lemma ScaledElement(m: Matrix, scale: seq<real>, constant: seq<real>, s: Matrix, i: nat, j: nat)
    requires MatrixValid(m) && m.cols <= |scale| && m.cols <= |constant|
    requires MatrixValid(s) && s.rows == m.rows && s.cols == m.cols
    requires Rows(s) == ScaledRows(m, scale, constant)
    requires i < m.rows && j < m.cols
    ensures At(s, i, j) == At(m, i, j) * scale[j] + constant[j]
  {
    assert Rows(s)[i] == Row(s, i);
    assert ScaledRows(m, scale, constant)[i] == ScaleRow(Row(m, i), scale, constant);
  }
}
