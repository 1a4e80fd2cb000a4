/** Failure-carrying results: the model's stand-in for the error returns,
    log.Panic and log.Fatal exits of the Go program. */
module Results {

  datatype Option<+T> = None | Some(value: T)

  datatype Result<+T, +E> = Ok(value: T) | Err(error: E)
}
