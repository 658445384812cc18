/**
  Small vocabulary shared by every part of the metric engine: optional and
  fallible results, the two calculation flavours, the metric kinds and the
  row index formats.
*/
module CubeTypes {

  /** NULL-or-object, as the engine's pointer results are. */
  datatype Option<+T> = None | Some(value: T)

  /** A result that may carry one of the engine's error conditions. */
  datatype Result<+R, +E> = Success(value: R) | Failure(error: E)

  /** Calculation flavour of a call-path or system-resource query. */
  datatype Flavour = Inclusive | Exclusive

  /** Numeric code of a flavour as it enters the cache keys (INCLUSIVE = 0, EXCLUSIVE = 1). */
  function Code(f: Flavour): (k: nat)
    ensures k < 2
    ensures f == Inclusive <==> k == 0
  {
    if f == Inclusive then 0 else 1
  }

  lemma CodeInjective(f: Flavour, g: Flavour)
    ensures Code(f) == Code(g) <==> f == g
  {
  }

  /** The metric kinds the engine distinguishes through `get_type_of_metric`. */
  datatype MetricKind =
    | ExclusiveKind
    | InclusiveKind
    | PreDerivedInclusiveKind
    | PreDerivedExclusiveKind
    | PostDerivedKind

  /** Layout of a metric's row index on disk. */
  datatype IndexFormat = Sparse | Dense
}
