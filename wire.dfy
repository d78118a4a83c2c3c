/** Basic wire types shared by the receiver model. */
module Wire {

  /** One byte of a received datagram (the source's `char`, read as 0..255). */
  type byte = x: int | 0 <= x < 256

  /** A 16-bit port number (`uint16_t`). */
  type uint16 = x: int | 0 <= x < 0x1_0000

  /** The result of a search or a bounds-checked read; `None` stands for `npos` or "out of bounds". */
  datatype Option<T> = None | Some(value: T)

  function Min(a: nat, b: nat): nat
  {
    if a <= b then a else b
  }

  /** `n` zero bytes (`std::string(n, '\0')`). */
  function Zeros(n: nat): (r: seq<byte>)
    ensures |r| == n && forall i :: 0 <= i < n ==> r[i] == 0
  {
    seq(n, _ => 0)
  }
}
