/*
 * The optional value the model uses wherever the source has a
 * `std::optional`, a nullable pointer or an operation that can fail
 * without saying why.
 */
module Options {

  datatype Option<T> = None | Some(value: T)
}
