/**
 * Arithmetic and error-code helpers of flexalloc_util.h.
 *
 * C's fixed-width integers are modelled as subset types of `int`, so that a
 * truncation or a wrap-around has to be written out where the source has one.
 */
module Util {
  import opened Arith

  const U16: int := 0x1_0000
  const U32: int := 0x1_0000_0000
  const U64: int := 0x1_0000_0000_0000_0000
  const I32Min: int := -0x8000_0000
  const I32Max: int := 0x7fff_ffff

  /** UINT16_MAX */
  const Uint16Max: int := U16 - 1

  type u16 = x: int | 0 <= x < U16
  type u32 = x: int | 0 <= x < U32
  type u64 = x: int | 0 <= x < U64
  type i32 = x: int | I32Min <= x <= I32Max

  /** Linux errno values used by the block-I/O layer. */
  const EAGAIN: int := 11
  const EBUSY: int := 16
  const EINVAL: int := 22
  const EIO: int := 5

  /** Conversion of a value to `uint16_t`: keep the low 16 bits. */
  function Trunc16(x: int): (r: u16)
    ensures 0 <= x < U16 ==> r == x
    ensures (r - x) % U16 == 0
  {
    x % U16
  }

  /** `uint64_t` addition, which wraps modulo 2^64. */
  function Add64(a: u64, b: u64): (r: u64)
    ensures a + b < U64 ==> r == a + b
    ensures a + b >= U64 ==> r == a + b - U64
  {
    if a + b < U64 then a + b else a + b - U64
  }

  /** `uint64_t` multiplication, which wraps modulo 2^64. */
  function Mul64(a: u64, b: u64): (r: u64)
    ensures a * b < U64 ==> r == a * b
    ensures (r - a * b) % U64 == 0
  {
    MulNonneg(a, b);
    var p := a * b;
    ModDiff(p, U64);
    if p < U64 then p else p % U64
  }

  /** `uint32_t` multiplication, which wraps modulo 2^32. */
  function Mul32(a: u32, b: u32): (r: u32)
    ensures a * b < U32 ==> r == a * b
    ensures (r - a * b) % U32 == 0
  {
    MulNonneg(a, b);
    var p := a * b;
    ModDiff(p, U32);
    if p < U32 then p else p % U32
  }

  /** fla_min(a, b): `a < b ? a : b`. */
  function Min(a: int, b: int): (r: int)
    ensures r <= a && r <= b
    ensures r == a || r == b
  {
    if a < b then a else b
  }

  /** FLA_CEIL_DIV(x, y) on `uint64_t`: `(x + y - 1) / y`, whose sum wraps. */
  function CeilDiv(x: u64, y: u64): (r: u64)
    requires y > 0
    ensures x + y - 1 < U64 ==> r * y >= x
    ensures x + y - 1 < U64 ==> r == 0 || (r - 1) * y < x
  {
    var n := x + y - 1;
    CeilBounds(x, y);
    DivLe(n % U64, y);
    assert n < U64 ==> n % U64 == n;
    (n % U64) / y
  }

  /** FLA_ERRNO_VAL(e): `e == 0 ? 0 : e > 0 ? -e : -1`. */
  function ErrnoVal(e: i32): (r: i32)
    ensures r <= 0
    ensures r == 0 <==> e == 0
    ensures e > 0 ==> r == -e
    ensures e < 0 ==> r == -1
  {
    if e == 0 then 0 else if e > 0 then -e else -1
  }

  /**
   * Return value of fla_err_fl (FLA_ERR): the condition itself, whether or
   * not a message is printed.
   */
  function ErrFl(condition: i32): (r: i32)
    ensures r == condition
    ensures r != 0 <==> condition != 0
  {
    condition
  }

  /**
   * Return value of fla_err_errno_fl (FLA_ERR_ERRNO). The errno in force
   * is an input. Errno only describes an error that the condition has
   * already detected; it never detects one.
   */
  function ErrErrnoFl(condition: i32, errno: i32): (r: i32)
    ensures condition == 0 ==> r == 0
    ensures condition != 0 && errno != 0 ==> r == ErrnoVal(errno) && r < 0
    ensures condition != 0 && errno == 0 ==> r == condition
    ensures r == 0 <==> condition == 0
  {
    var captured := ErrnoVal(errno);
    if condition != 0 && captured != 0 then captured else condition
  }

  /** C's conversion of a boolean condition to `int`. */
  function BoolToInt(b: bool): (r: i32)
    ensures r == 0 <==> !b
    ensures 0 <= r <= 1
  {
    if b then 1 else 0
  }
}
