/** Result and option types shared by the whole model. */
module Wrappers {

  datatype Option<+T> = None | Some(value: T)

  /** The zx_status_t values the modelled code paths can return. */
  datatype Status =
    | ErrNoSpace
    | ErrBadState
    | ErrOutOfRange
    | ErrFileBig
    | ErrInvalidArgs
    | ErrNotFound
    | ErrAlreadyExists
    | ErrNotEmpty
    | ErrNotDir
    | ErrNotFile
    | ErrNotSupported
    | ErrIo
    | ErrIoDataIntegrity

  datatype Result<+T> = Ok(value: T) | Err(error: Status)
}
