/** Option and Result values used for nullable pointers and GError returns. */
module Wrappers {
  datatype Option<T> = None | Some(value: T)

  datatype Result<T, E> = Ok(value: T) | Err(error: E)

  /** The GError codes the modelled code creates or passes on. */
  datatype Error = NotSupported | Cancelled | Failed(message: string)
}
