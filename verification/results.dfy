/** Small result types shared by the other modules. */
module Results {

  datatype Option<+T> = None | Some(value: T)

  /** The success/failure outcome of a check that returns 0 or -1 in the driver. */
  datatype Outcome<+E> = Pass | Fail(error: E)
}
