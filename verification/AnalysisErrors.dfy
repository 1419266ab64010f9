/** The one exception of the analysis modules: analysis/security.py defines it and analysis/latency.py raises it
    too. */
module AnalysisErrors {

  datatype AnalysisError =
    | TooFewRepetitions
    | RateOverNothing
    | NegativeDiscard
    | BadPhase
    | BadSpan
    | MissingSpan
    | RefusalPathPooled
    | EmptySeries
    | ConfidenceOutOfRange
    | TooFewResamples
}
