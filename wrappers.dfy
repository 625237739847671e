/** Results and the error kinds the driver can raise. */
module Wrappers {

  datatype Option<+T> = None | Some(value: T)

  /** The exceptions the modelled code raises. */
  datatype Error =
    | NoDeviceFound   // scan_ finds no candidate: Exception("No DGLAB v2.0 found")
    | OverflowError   // int.to_bytes on a value that does not fit
    | ValueError      // int(s, 2) on an empty string

  datatype Result<+T> = Ok(value: T) | Err(error: Error)
}
