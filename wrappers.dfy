/** Small failure-carrying datatypes shared by the other modules. */
module Wrappers {

  datatype Option<+T> = None | Some(value: T)

  /** The one runtime failure the engine can hit: a method sent to Ruby's `nil`
      (`NoMethodError`), e.g. indexing the last entry of an empty series. */
  datatype Fault = NilReceiver

  datatype Result<+T> = Ok(value: T) | Fail(fault: Fault)
}
