/** The label encoder (src/preprocessing/encoders/labelencoder.rs): `fit` gives every
    distinct label a code 0, 1, 2, ... in first-seen order; `transform` replaces each
    label by its code and fails on a label it never saw. Codes are `nat`: the source
    only ever adds `V::one()` to `V::zero()`. */
module LabelEncoding {
  import opened Base
  import P = Preprocessing
  import opened FirstSeen

  /** `LabelEncoderFitter`: the label map and the fit status. */
  datatype LabelEncoderFitter<K(==)> = LabelEncoderFitter(labelMap: map<K, nat>, fitStatus: P.FitStatus)

  /** `LabelEncoder`: a transformer holding the fitter it was made from. */
  datatype LabelEncoder<K(==)> = LabelEncoder(fitter: LabelEncoderFitter<K>)

  /** `LabelEncoderFitter::default()`: no labels, not fit. */
  function Default<K(==)>(): (f: LabelEncoderFitter<K>)
    ensures f.labelMap == map[] && f.fitStatus == P.NotFit
  {
    LabelEncoderFitter(map[], P.DefaultFitStatus())
  }

  /** `fit`: one pass over the labels; a label not yet in the map gets the running
      counter as its code and the counter moves on. Any previous map is discarded. */
  method Fit<K(==)>(fitter: LabelEncoderFitter<K>, input: seq<K>) returns (r: Result<LabelEncoder<K>>)
    ensures r.Success?
    ensures r.value.fitter.labelMap == Codes(input)
    ensures r.value.fitter.fitStatus == P.Fit
  {
    var labelMap: map<K, nat> := map[];
    var encoderValue: nat := 0;
    var i := 0;
    while i < |input|
      invariant 0 <= i <= |input|
      invariant labelMap == Codes(input[..i])
      invariant encoderValue == |labelMap|
    {
      var value := input[i];
      assert input[..i + 1][..i] == input[..i];
      if value !in labelMap {
        labelMap := labelMap[value := encoderValue];
        encoderValue := encoderValue + 1;
      }
      i := i + 1;
    }
    assert input[..i] == input;
    r := Success(LabelEncoder(LabelEncoderFitter(labelMap, P.Fit)));
  }

  /** `transform`: the code of every label, in input order; `InvalidState` as soon as
      a label is missing from the fitted map. The encoder itself is only read. */
  method Transform<K(==)>(encoder: LabelEncoder<K>, input: seq<K>) returns (r: Result<seq<nat>>)
    ensures r.Success? <==> forall i :: 0 <= i < |input| ==> input[i] in encoder.fitter.labelMap
    ensures r.Failure? ==> r.error == InvalidState
    ensures r.Success? ==> |r.value| == |input|
    ensures r.Success? ==> forall i :: 0 <= i < |input| ==> r.value[i] == encoder.fitter.labelMap[input[i]]
  {
    var mappedVec: seq<nat> := [];
    var i := 0;
    while i < |input|
      invariant 0 <= i <= |input|
      invariant |mappedVec| == i
      invariant forall j :: 0 <= j < i ==> input[j] in encoder.fitter.labelMap
      invariant forall j :: 0 <= j < i ==> mappedVec[j] == encoder.fitter.labelMap[input[j]]
    {
      var element := input[i];
      if element in encoder.fitter.labelMap {
        mappedVec := mappedVec + [encoder.fitter.labelMap[element]];
      } else {
        return Failure(InvalidState);
      }
      i := i + 1;
    }
    r := Success(mappedVec);
  }

  /** Fitting on labels and transforming the same labels never fails, and every label
      is replaced by the code of its first occurrence. */
  method FitThenTransform<K(==)>(input: seq<K>) returns (codes: Result<seq<nat>>)
    ensures codes.Success? && |codes.value| == |input|
    ensures forall i :: 0 <= i < |input| ==> input[i] in Codes(input) && codes.value[i] == Codes(input)[input[i]]
    ensures forall i :: 0 <= i < |input| ==> codes.value[i] < |Codes(input)|
  {
    var encoder := Fit(Default(), input);
    CodesKeys(input);
    CodesDense(input);
    codes := Transform(encoder.value, input);
  }

  /** The first label gets code 0. */
  lemma CodeOfFirstLabel<K>(input: seq<K>)
    requires input != []
    ensures input[0] in Codes(input) && Codes(input)[input[0]] == 0
  {
    CodesFirstOccurrence(input, 0);
  }

  /** A small example: ["b","a","b","c"] maps to {b:0, a:1, c:2}. */
  lemma SmallExample()
    ensures Codes(["b", "a", "b", "c"]) == map["b" := 0, "a" := 1, "c" := 2]
  {
    var s := ["b", "a", "b", "c"];
    CodesAppendNew([], "b");
    assert [] + ["b"] == ["b"];
    CodesAppendNew(["b"], "a");
    assert ["b"] + ["a"] == ["b", "a"];
    CodesAppendSeen(["b", "a"], ["b"]);
    assert ["b", "a"] + ["b"] == ["b", "a", "b"];
    CodesAppendNew(["b", "a", "b"], "c");
    assert ["b", "a", "b"] + ["c"] == s;
  }

  /** The target column of the iris data: 50 rows of each species, in this order. */
  function IrisSpecies(): seq<string>
  {
    seq(50, _ => "Iris-setosa") + seq(50, _ => "Iris-versicolor") + seq(50, _ => "Iris-virginica")
  }

  /** Label encoding the iris targets: setosa, versicolor, virginica get 0, 1, 2,
      and the 150 codes are 50 zeros, 50 ones and 50 twos. */
  lemma IrisCodes()
    ensures Codes(IrisSpecies()) == map["Iris-setosa" := 0, "Iris-versicolor" := 1, "Iris-virginica" := 2]
    ensures |IrisSpecies()| == 150
    ensures forall i :: 0 <= i < 150 ==> Codes(IrisSpecies())[IrisSpecies()[i]] == i / 50
  {
    var a, b, c := "Iris-setosa", "Iris-versicolor", "Iris-virginica";
    var sa, sb, sc := seq(50, _ => a), seq(50, _ => b), seq(50, _ => c);
    assert sa == [a] + sa[1..];
    CodesAppendNew([], a);
    assert [] + [a] == [a];
    CodesAppendSeen([a], sa[1..]);
    assert a != b && a != c && b != c;
    assert b !in sa;
    CodesAppendNew(sa, b);
    assert sa + sb == (sa + [b]) + sb[1..];
    CodesAppendSeen(sa + [b], sb[1..]);
    assert c !in sa + sb;
    CodesAppendNew(sa + sb, c);
    assert sa + sb + sc == (sa + sb + [c]) + sc[1..];
    CodesAppendSeen(sa + sb + [c], sc[1..]);
    assert IrisSpecies() == sa + sb + sc;
  }
}
