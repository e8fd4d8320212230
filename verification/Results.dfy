/** The outcome of an operation: a value, or one of the driver's error codes. */
module Results {
  datatype Error = EINVAL | EIO | ENOSPC | EFAULT | ENOENT | EILSEQ | ENOATTR | EEXIST | ERANGE

  datatype Result<+T> = Ok(value: T) | Err(error: Error)

  datatype Option<T> = None | Some(value: T)
}
