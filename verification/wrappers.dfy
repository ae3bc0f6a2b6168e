/** Option and status codes shared by every module of the model. */
module Wrappers {

  /** A value that may be absent; stands for a nullable C pointer. */
  datatype Option<+T> = None | Some(value: T)

  /** The iotcon error codes (iotcon_error_e) the modelled operations return.
      `External` carries the code of a collaborator whose failure is passed
      through unchanged (D-Bus, IoTivity, timers). */
  datatype Status =
    | Ok
    | InvalidParameter
    | OutOfMemory
    | NoData
    | Already
    | NotSupported
    | SystemError
    | External(code: int)
}
