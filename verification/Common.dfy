/** Vocabulary shared by the models of the individual source files. */
module Common {
  datatype Option<+T> = None | Some(value: T)

  /** An octet on the wire. */
  type Byte = b: int | 0 <= b < 256

  datatype IpAddr = V4(octets: seq<Byte>) | V6(octets: seq<Byte>)

  datatype SocketAddr = SocketAddr(ip: IpAddr, port: nat)

  /** One more than the largest `u64`. */
  const U64_LIMIT := 0x1_0000_0000_0000_0000

  function Min(a: int, b: int): int {
    if a <= b then a else b
  }

  /** Rust's `saturating_sub` on unsigned integers. */
  function SaturatingSub(a: nat, b: nat): nat {
    if a >= b then a - b else 0
  }

  lemma Associative<T>(a: seq<T>, b: seq<T>, c: seq<T>)
    ensures a + b + c == a + (b + c)
    ensures a + [] == a
  {
  }
}
