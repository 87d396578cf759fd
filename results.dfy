/** Outcomes of the engine's operations: a value or the error the source raises. */
module Results {

  datatype Option<T> = None | Some(value: T)

  datatype Error =
    /** `_build_corr_entries`: the measurement vector has the wrong length. */
    | ValueError(expected: nat, got: nat)
    /** `Simplifier.simplify`: no entry led to an applicable rule. */
    | NoApplicableSimplificationRuleError

  datatype Result<T> = Ok(value: T) | Err(error: Error)
}
