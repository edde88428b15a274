/** Small value types shared by the kernels. */
module Common {

  /** Python's optional argument: None or a value. */
  datatype Option<T> = None | Some(value: T)

  /** A value or the exception the Python code raises instead. */
  datatype Result<T, E> = Ok(value: T) | Err(error: E)

  /** Python's range(n) is empty for negative n: its length is Max0(n). */
  function Max0(n: int): (r: nat)
    ensures r >= n && (n >= 0 ==> r == n) && (n <= 0 ==> r == 0)
  {
    if n < 0 then 0 else n
  }
}
