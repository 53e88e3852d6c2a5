/** Optional values and error results, standing in for JavaScript's
    `undefined`/`NaN` and for thrown errors. */
module Results {

  datatype Option<T> = None | Some(value: T)

  datatype Result<T, E> = Ok(value: T) | Err(error: E)
}
