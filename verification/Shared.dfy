/** Datatypes that several parts of the model use. */
module Shared {

  datatype Option<T> = None | Some(value: T)

  /** What a backup contains: both databases, the configuration or the telemetry. */
  datatype Scope = All | Config | Data
}
