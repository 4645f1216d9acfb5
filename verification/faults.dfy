/** Result plumbing shared by the logger modules. */
module Faults {

  datatype Option<+T> = None | Some(value: T)

  /**
   * The error kinds a logger call can report. BadArguments, Failed and NoFile
   * are the fault kinds of the package; Other stands for any plain error value
   * (an operating-system error passed through, or a formatted message), whose
   * text is not modelled.
   */
  datatype Fault = BadArguments | Failed | NoFile | Other
}
