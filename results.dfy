/** Return values shared by the schedule client and the dispatcher. */
module Results {

  /** Python's `None` or a value. */
  datatype Option<+T> = None | Some(value: T)

  /** The ways the modelled Python code raises instead of returning. */
  datatype Failure =
    | PatternMismatch   // `re.match` found nothing and `.group` is called on None (AttributeError)
    | EmptyMinimum      // `min` over an empty generator (ValueError)
    | ScheduleNotFound  // the schedule query answered with no schedules
    | NoUsers           // `response['users'][0]` on an empty list (IndexError)
    | MissingName       // `['name']` looked up in an empty user record (KeyError)

  /** Either the value a call returns or the failure it raises. */
  datatype Outcome<+T> = Ok(value: T) | Raises(error: Failure)
}
