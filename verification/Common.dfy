/** Machine-level value types shared by every layer. */
module Common {
  type byte = x: int | 0 <= x < 256
  type bit = x: int | 0 <= x < 2

  datatype Option<+T> = None | Some(value: T)

  function Repeat<T>(x: T, n: nat): seq<T> {
    seq(n, _ => x)
  }
}
