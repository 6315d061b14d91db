/** Error results shared by the wage and leave-accrual engines. */
module Outcome {

  /** Why a calculation is refused. */
  datatype Error =
    | AllowancesExceedSalary   // fixed allowances alone exceed the target salary
    | ZeroDenominator          // base + weekly-holiday hours is zero: no ordinary wage
    | UndefinedWsh             // no weekly-standard-hours entry applies at a range start

  datatype Result<T> = Ok(value: T) | Err(error: Error)

  datatype Option<T> = None | Some(value: T)
}
