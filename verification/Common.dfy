/** Types shared by the whole model. */
module Common {

  datatype Option<+T> = None | Some(value: T)

  /** One octet of a stream, `u8` in the program. */
  newtype byte = x: int | 0 <= x < 256

  /** An IPv4 address in host order, `u32` in the program. */
  type Ip = x: int | 0 <= x < 0x1_0000_0000

  /** A `u16` port number. */
  type Port = x: int | 0 <= x < 65536

  /** The bytes of a sequence of chunks, one chunk after the other. */
  function Flatten<T>(chunks: seq<seq<T>>): seq<T> {
    if chunks == [] then [] else chunks[0] + Flatten(chunks[1..])
  }

  lemma Assoc<T>(a: seq<T>, b: seq<T>, c: seq<T>)
    ensures (a + b) + c == a + (b + c)
  {
  }

  function Min(a: nat, b: nat): nat {
    if a <= b then a else b
  }
}
