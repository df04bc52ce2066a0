/** The fit/transform protocol shared by every preprocessor (src/preprocessing/mod.rs).

    A fitter is consumed by `fit`, which returns either an error or a transformer
    holding the fitter in state `Fit`; a transformer maps an input it only reads to a
    fresh output. In this model fitters and transformers are values, so `fit` taking
    its fitter by value and `transform` leaving its input untouched hold by construction;
    each preprocessor module gives its own `Fit` and `Transform`. */
module Preprocessing {

  /** Whether a fitter has been fit; there is no third state. */
  datatype FitStatus = NotFit | Fit

  /** `FitStatus::default()`. */
  function DefaultFitStatus(): (s: FitStatus)
    ensures s != Fit
  {
    NotFit
  }
}
