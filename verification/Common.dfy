/** Values shared by every component: optional values, results and bytes. */
module Common {

  datatype Option<+T> = None | Some(value: T)

  datatype Result<+T, +E> = Success(value: T) | Failure(error: E)

  type Byte = x: int | 0 <= x < 256

  const U16_LIMIT: nat := 0x1_0000
  const U32_LIMIT: nat := 0x1_0000_0000
  const U64_LIMIT: nat := 0x1_0000_0000_0000_0000

  type I32 = x: int | -0x8000_0000 <= x < 0x8000_0000

  /** `as i32`, and i32 arithmetic where it wraps. */
  function AsI32(x: int): I32 {
    (x + 0x8000_0000) % U32_LIMIT - 0x8000_0000
  }

  /** Big-endian readers, as `u16::from_be_bytes` and `u32::from_be_bytes`. */
  function U16Be(d: seq<Byte>, at: nat): (n: nat)
    requires at + 2 <= |d|
    ensures n < U16_LIMIT
  {
    d[at] as int * 0x100 + d[at + 1] as int
  }

  function U32Be(d: seq<Byte>, at: nat): (n: nat)
    requires at + 4 <= |d|
    ensures n < U32_LIMIT
  {
    d[at] as int * 0x100_0000 + d[at + 1] as int * 0x1_0000 + d[at + 2] as int * 0x100 + d[at + 3] as int
  }

  function PutU32Be(n: nat): (d: seq<Byte>)
    requires n < U32_LIMIT
    ensures |d| == 4 && U32Be(d, 0) == n
  {
    var hi, lo := n / 0x1_0000, n % 0x1_0000;
    [hi / 0x100, hi % 0x100, lo / 0x100, lo % 0x100]
  }

  lemma Scale(a: int, b: int, n: nat)
    requires a <= b
    ensures a * n <= b * n
  {
  }
}
