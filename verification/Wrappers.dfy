/** Small definitions shared by the modules that work on sequences. */
module Wrappers {

  datatype Option<T> = None | Some(value: T)

  function One(b: bool): nat { if b then 1 else 0 }

  function Repeat<T>(x: T, n: nat): seq<T> { seq(n, _ => x) }

  /** The chunks of a stream, put together. */
  function Joined<T>(chunks: seq<seq<T>>): seq<T> {
    if chunks == [] then [] else chunks[0] + Joined(chunks[1..])
  }
}
