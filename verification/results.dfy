/**
 * The result of an operation that the source ends by throwing
 * `std::invalid_argument`: either the value it builds, or the reason it
 * throws.
 */
module Results {

  datatype Result<T, E> = Ok(value: T) | Err(error: E)
}
