/** The two outcome shapes the Grasshopper host boundary needs.

    A component input that the host fails to deliver (`DA.GetData` or
    `DA.GetDataList` returning false) is an `Option` that is `None`; an
    operation that would throw inside the host is a `Result` that is a
    `Failure`.
 */
module Host {

  datatype Option<+T> = None | Some(value: T)

  datatype Result<+R, +E> = Success(value: R) | Failure(error: E)

  /** Clamp a host integer to the number of times a `for (i = 0; i < n; i++)`
      loop runs. */
  function Iterations(n: int): (k: nat)
    ensures n <= 0 ==> k == 0
    ensures n >= 0 ==> k == n
  {
    if n < 0 then 0 else n
  }
}
