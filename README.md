# rust-ml preprocessing core in Dafny

This project models the data-preparation core of the `rust-ml` crate:
- the label encoder;
- the one-hot encoder;
- the min-max scaler;
- the `Dataset` record and the splitting and flattening that `Dataset::from_csv` does once a CSV file has been read;
- the `FitStatus` protocol shared by every preprocessor.

Each preprocessor follows the same protocol. A fitter is consumed by `fit`, which returns either an error or a transformer that holds the fitter in state `Fit`. A transformer maps an input it only reads to a fresh output. Fitters, transformers and datasets are modelled as immutable datatypes, because the Rust `fit` takes `self` by value and `transform` only borrows its input.

`fit` and `transform` are methods whose loops follow the source's loops. Each loop is proved against a specification function:
- **Label and one-hot encoders:** the first-seen code map `FirstSeen.Codes` is shared by the label encoder and, column by column, by the one-hot encoder.
- **Min-max scaler:** running minima and maxima, and the affine factors derived from them.
- **One-hot encoder:** indicator blocks and encoded rows.
- **CSV loading:** the record-loading predicate.

Lemmas then state what the source promises of those functions. For example:
- codes are dense and injective, and repeats keep their first code;
- fitting and then transforming the same labels never fails;
- fitted bounds are attained;
- the boundary law;
- indicator blocks sum to 1 or 0;
- the number of output columns of the one-hot encoder;
- row-major flattening round-trips.

Files and modules:
- `base.dfy`, module `Base`: `ErrorKind`, `Option`, and `Result`, which stands for the crate's result type.
- `preprocessing.dfy`, module `Preprocessing`: `FitStatus` and its default.
- `first_seen.dfy`, module `FirstSeen`: first-seen code assignment and its laws.
- `label_encoder.dfy`, module `LabelEncoding`.
- `one_hot_encoder.dfy`, module `OneHotEncoding`.
- `min_max_scaler.dfy`, module `MinMaxScaling`.
- `dataset.dfy`, module `Datasets`: the matrix as a row-major buffer, `Dataset`, `MixedDataset`, and CSV splitting.

The crate shows `MixedDataset` and `MixedDataValue` only through their uses, so both are defined here from those uses:
- a mixed dataset is rows of `Numeric(real) | Categorical(string)` cells, plus targets, feature column names and the target column name.

Where the source panics, the model has a precondition instead. The panics covered this way are:
- indexing the first row of an empty result;
- an index past the end of a vector;
- the matrix size assertion.

## Model

| member | source | states |
|---|---|---|
| Preprocessing.DefaultFitStatus | src/preprocessing/mod.rs:48-53 | the default status of the two-valued `FitStatus` is not `Fit`, i.e. it is `NotFit` |
| FirstSeen.CodesKeys | src/preprocessing/encoders/labelencoder.rs:149-154 | the keys of the first-seen map are exactly the values occurring in the input |
| FirstSeen.CodesDense | src/preprocessing/encoders/labelencoder.rs:147-154 | the codes are exactly 0..k-1 for k keys, each used by one key |
| FirstSeen.CodesPrefix | src/preprocessing/encoders/labelencoder.rs:150-153 | a code, once given, is never changed by later values |
| FirstSeen.CodesFirstOccurrence | src/preprocessing/encoders/labelencoder.rs:150-152 | a value seen for the first time at position j gets the number of distinct values before j |
| FirstSeen.CodesRepeat | src/preprocessing/encoders/labelencoder.rs:150-153 | a value already in the map leaves the map and the counter unchanged |
| FirstSeen.CodesAppendSeen | src/preprocessing/encoders/labelencoder.rs:150 | appending only already-seen values leaves the map unchanged |
| FirstSeen.CodesAppendNew | src/preprocessing/encoders/labelencoder.rs:150-152 | appending a new value gives it code = current map size and changes nothing else |
| LabelEncoding.Default | src/preprocessing/encoders/labelencoder.rs:124-129 | a default fitter has an empty label map and status `NotFit` |
| LabelEncoding.Fit | src/preprocessing/encoders/labelencoder.rs:145-157 | fit never fails, discards any previous map, leaves the first-seen map of the input and status `Fit` |
| LabelEncoding.Transform | src/preprocessing/encoders/labelencoder.rs:76-91 | fails with `InvalidState` exactly when some label is missing from the map; otherwise returns, in input order, each label's code |
| LabelEncoding.FitThenTransform | src/preprocessing/encoders/labelencoder.rs:79-88 | transform after fit on the same labels always succeeds, yields each label's first-seen code, all below the number of distinct labels |
| LabelEncoding.CodeOfFirstLabel | src/preprocessing/encoders/labelencoder.rs:147-152 | the first label gets code 0 |
| LabelEncoding.SmallExample | src/preprocessing/encoders/labelencoder.rs:146-154 | labels b, a, b, c are coded b:0, a:1, c:2 |
| LabelEncoding.IrisCodes | tests/labelencoder.rs:16-35 | the iris species are coded setosa 0, versicolor 1, virginica 2, giving 150 codes (50 of each) |
| Datasets.New | src/dataset/mod.rs:69-96 | `Dataset::new` stores its four arguments and the getters return exactly them |
| Datasets.RowsOfFlatten | src/dataset/mod.rs:170-171 | flattening rows of one width gives a valid buffer from which the same rows are read back |
| Datasets.FlattenRows | src/dataset/mod.rs:170-171 | the rows of a valid matrix, flattened, give back its buffer |
| Datasets.FirstIndex | src/dataset/mod.rs:129-137 | the target index is the first header position holding the target name |
| Datasets.WithoutColumn | src/dataset/mod.rs:176-180 | the feature names never contain the target name |
| Datasets.WithoutColumnContents | src/dataset/mod.rs:176-180 | the feature names are the header entries other than the target, and as many as the header has such entries |
| Datasets.ParseRecord | src/dataset/mod.rs:144-164 | a record loads iff its target cell and every other cell parse; the target and, in order, the other cells' values are returned |
| Datasets.FromCsv | src/dataset/mod.rs:116-183 | succeeds iff the target column is present and every record has the header's width and parses; otherwise `InvalidData`; targets, names, and matrix element (i, j) = parsed feature j of record i; a header naming the target once gives a well-shaped dataset |
| Datasets.LoadedMatrix | src/dataset/mod.rs:166-171 | the flattened feature rows form a valid matrix of one row per record and the first row's width |
| Datasets.WithoutUniqueColumn | src/dataset/mod.rs:173-182 | with the target named once, the feature names line up with the feature cells of every record |
| Datasets.DuplicateTargetHeader | src/dataset/mod.rs:142-182 | with the target named twice, the names drop both occurrences while the records drop one cell |
| Datasets.IrisColumns | tests/iris.rs:7-19 | for the iris header the feature names are Id and the four measurements, target index 5, width 5 |
| MinMaxScaling.New | src/preprocessing/scalers/minmaxscaler.rs:128-140 | a new fitter keeps the given range, has no features and status `NotFit` |
| MinMaxScaling.Default | src/preprocessing/scalers/minmaxscaler.rs:173-187 | the default fitter equals `new(0.0, 1.0)` |
| MinMaxScaling.ScanMinIsMinimum | src/preprocessing/scalers/minmaxscaler.rs:210-219 | the running minimum of a column is below every value and is one of them |
| MinMaxScaling.ScanMaxIsMaximum | src/preprocessing/scalers/minmaxscaler.rs:210-219 | the running maximum of a column is above every value and is one of them |
| MinMaxScaling.ScanColumns | src/preprocessing/scalers/minmaxscaler.rs:205-219 | the nested scan leaves every column's minimum and maximum |
| MinMaxScaling.Fit | src/preprocessing/scalers/minmaxscaler.rs:202-237 | fit never fails, keeps the range, sets status `Fit`, records the feature count, the per-column bounds and the scale and constant factors, all vectors of the feature count's length |
| MinMaxScaling.FittedBounds | src/preprocessing/scalers/minmaxscaler.rs:205-219 | after fit each column's minimum and maximum bound every value of the column and are attained |
| MinMaxScaling.BoundaryLaw | src/preprocessing/scalers/minmaxscaler.rs:225-231 | when max differs from min, min is mapped to scaled_min and max to scaled_max |
| MinMaxScaling.FittedBoundaryLaw | src/preprocessing/scalers/minmaxscaler.rs:205-231 | after fit, for a feature whose maximum differs from its minimum, it returns a row holding the minimum, which is mapped to scaled_min, and a row holding the maximum, which is mapped to scaled_max |
| MinMaxScaling.ScaledIntoRange | src/preprocessing/scalers/minmaxscaler.rs:103-113 | a value between min and max is mapped into [scaled_min, scaled_max]; a constant column maps to scaled_min only through the model's 0.0 factor |
| MinMaxScaling.PushScaledRow | src/preprocessing/scalers/minmaxscaler.rs:73-77 | one row's values, scaled, are appended in order |
| MinMaxScaling.ScaleData | src/preprocessing/scalers/minmaxscaler.rs:72-78 | the buffer is the row-major flattening of every row scaled element-wise |
| MinMaxScaling.Transform | src/preprocessing/scalers/minmaxscaler.rs:56-88 | fails with `InvalidState` exactly when the feature count differs from the number of feature names; otherwise element (i, j) = input(i, j) * scale[j] + constant[j], same rows, metadata copied |
| MinMaxScaling.ScaledMatrix | src/preprocessing/scalers/minmaxscaler.rs:80 | the scaled buffer read as a matrix of the feature count's width holds the scaled elements |
| OneHotEncoding.Default | src/preprocessing/encoders/onehotencoder.rs:111-117 | a default fitter has an empty category map and status `NotFit` |
| OneHotEncoding.NoCategoriesIffNumeric | src/preprocessing/encoders/onehotencoder.rs:134-141 | a column has no category exactly when all its cells are numeric |
| OneHotEncoding.CategoryMapWellFormed | src/preprocessing/encoders/onehotencoder.rs:129-146 | every stored column map is non-empty with dense, unique indices |
| OneHotEncoding.CategoryMapDomain | src/preprocessing/encoders/onehotencoder.rs:129-146 | every stored column map is filed under one of the columns visited so far |
| OneHotEncoding.CategoryMapAt | src/preprocessing/encoders/onehotencoder.rs:129-146 | with distinct names, a column has a map iff it has a categorical cell, and the map is the first-seen map of its categories |
| OneHotEncoding.FitCell | src/preprocessing/encoders/onehotencoder.rs:136-140 | one row's cell extends the column map exactly as the first-seen map of the column's categories up to that row |
| OneHotEncoding.FitColumn | src/preprocessing/encoders/onehotencoder.rs:132-141 | the column map gives each new category the current map size, skipping numeric cells |
| OneHotEncoding.FitStep | src/preprocessing/encoders/onehotencoder.rs:132-145 | one column step turns the category map of the first n columns into that of the first n + 1 |
| OneHotEncoding.FitColumns | src/preprocessing/encoders/onehotencoder.rs:129-146 | the category map holds, per column with categories, its map; columns without categories add nothing |
| OneHotEncoding.Fit | src/preprocessing/encoders/onehotencoder.rs:125-150 | fit never fails, replaces any previous map, sets status `Fit`, and the map is well formed |
| OneHotEncoding.PrefixedNames | src/preprocessing/encoders/onehotencoder.rs:47-50 | one name `col_cat` per category of the column map, each category visited once, as many names as categories |
| OneHotEncoding.ColumnNamesStep | src/preprocessing/encoders/onehotencoder.rs:47-53 | one column adds its prefixed names (enumerating its map's keys) or its own name, keeping the name count |
| OneHotEncoding.ColumnNames | src/preprocessing/encoders/onehotencoder.rs:46-54 | a mapped column gives its prefixed names, another column its own name; the count is the sum of (map size, or 1) |
| OneHotEncoding.Indicator | src/preprocessing/encoders/onehotencoder.rs:67-72 | a block of the map's size with 1.0 only at the category's index; it sums to 1 when the category was seen and 0 otherwise |
| OneHotEncoding.EncodeCell | src/preprocessing/encoders/onehotencoder.rs:61-80 | a numeric cell emits its value once; a categorical cell emits nothing without a map and a block summing to 1 or 0 with one |
| OneHotEncoding.EncodeRow | src/preprocessing/encoders/onehotencoder.rs:58-81 | an encoded row is as wide as the sum of its cells' widths |
| OneHotEncoding.TransformCell | src/preprocessing/encoders/onehotencoder.rs:61-80 | one cell's contribution is exactly its specified encoding |
| OneHotEncoding.TransformRow | src/preprocessing/encoders/onehotencoder.rs:58-82 | the row loop produces the cells' contributions in order |
| OneHotEncoding.TransformRows | src/preprocessing/encoders/onehotencoder.rs:57-83 | one encoded row per input row, in order |
| OneHotEncoding.Transform | src/preprocessing/encoders/onehotencoder.rs:40-97 | never fails; output names as above; a matrix of one row per input row, the first row's width, rows equal to the encoded rows; targets and target column copied |
| OneHotEncoding.FittedCellsSeen | src/preprocessing/encoders/onehotencoder.rs:66-72 | after fit on the same data, every categorical cell finds its category and its block sums to 1 |
| OneHotEncoding.ColumnTypedSameWidth | src/preprocessing/encoders/onehotencoder.rs:86-89 | when each column holds one kind of cell, every row encodes to the same width, so the rows fill the matrix |
| OneHotEncoding.FitTransformWidth | src/preprocessing/encoders/onehotencoder.rs:46-83 | after fit on column-typed data with distinct names, names and row width both equal the number of numeric columns plus the distinct categories of each categorical column |

## Left out

- File opening, the CSV reader and cell parsing: `from_csv` receives the header, the string records and two partial parse functions. The reader's error for a record whose width differs from the header's is modelled as `InvalidData`.
- The linear-algebra crate's `Matrix` and `Vector`: a matrix is a row-major buffer of reals with its dimensions; a vector is a sequence. The crate's own size assertion is a precondition.
- Error messages and the boxed error of src/base/error.rs: an error is its `ErrorKind` only.
- `f64` arithmetic: all values are reals, so rounding and the exact floating-point comparisons of the min-max test are not modelled.
- MinMaxScaling.Fit: requires at least one row, because `f64::MAX` and `f64::MIN` are kept as bounds over an empty matrix; the model's running bounds start as `None` instead.
- MinMaxScaling.Fit: requires the matrix width to equal the number of feature names. In the source a narrower matrix leaves the sentinels as bounds, and a wider one panics.
- MinMaxScaling.Fit: for a constant column (max = min) the model stores scale factor 0.0, so such a column maps to scaled_min. In `f64` the division gives an infinity or NaN.
- LabelEncoding.Fit: codes are naturals, not the `Float` code type, so the loss of exactness beyond the code type's exact integer range (2^53 distinct labels for `f64`, 2^24 for `f32`) is not modelled.
- OneHotEncoding.Transform: requires every row to encode to the same width. The source's matrix only checks the total size, so rows of different widths whose total happens to match are accepted there and regrouped. `ColumnTypedSameWidth` shows the requirement holds for column-typed data.
- OneHotEncoding.Transform: requires every index in every column map to be below that map's size, which `fit` guarantees. The map is a public field, and a hand-set index out of range would panic at the indicator write.
- Key order of `HashMap::keys`: unspecified in the source. The model returns the order used as a ghost result and promises only that each category is named once, not that names line up with indicator positions.
- `MixedDataset::from_csv` and the pokemon loader: that ingestion is not part of this model, so the 800 × 46 pokemon result is not stated.
- The iris minima and maxima of the min-max test: the iris data file is not part of this model.
- The iris loader and the wiring of src/lib.rs: fixed paths and module declarations, no behaviour.
- src/preprocessing/scalers/mod.rs: an unused duplicate of the scaler traits and `FitStatus`.
- `fit_status` and the other getters: read-only access to a field, modelled as the datatype's field.
