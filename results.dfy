/** The shape of a JSON handler's reply: a value sent with a success status, or an error. */
module Results {
  datatype Result<T> = Ok(value: T) | Err(status: nat, message: string)
}
