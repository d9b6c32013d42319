/**
 Byte-level building blocks of the SLP (Shallow Length Prefixed) codec: the
 byte and 16-bit integer types, the codec's three error kinds, the 2-byte
 little-endian length prefix, and an exact read from an in-memory byte source.
 */
module Wire {

  /** An unsigned 8-bit value (Rust `u8`). */
  type byte = b: int | 0 <= b < 0x100

  /** An unsigned 16-bit value (Rust `u16`), the width of an SLP length prefix. */
  type u16 = n: int | 0 <= n < 0x1_0000

  /** The longest item a 2-byte length prefix can describe. */
  const MaxItemLen: nat := 0xFFFF

  /** Number of bytes in a length prefix. */
  const PrefixLen: nat := 2

  /** The codec's error kinds. The underlying I/O or conversion fault that
      the source attaches as context is not modelled. */
  datatype Error = ItemTooLong | WriteError | ReadError

  /** A value or one of the codec's errors (Rust `Result<T, Error>`). */
  datatype Result<+T> = Success(value: T) | Failure(error: Error)

  /** Success without a value, or an error (Rust `Result<(), Error>`). */
  datatype Outcome = Pass | Fail(error: Error)

  /** The `usize -> u16` conversion of an item length: it fails exactly when
      the length does not fit in the prefix. */
  function ToU16(n: nat): (r: Result<u16>)
    ensures r.Success? <==> n <= MaxItemLen
    ensures r.Success? ==> r.value == n
    ensures r.Failure? ==> r.error == ItemTooLong
  {
    if n <= MaxItemLen then Success(n) else Failure(ItemTooLong)
  }

  /** Writes `n` as two little-endian bytes (`put_u16_le`). */
  function PutU16Le(n: u16): (r: seq<byte>)
    ensures |r| == PrefixLen
    ensures r[0] as int + 0x100 * r[1] as int == n
  {
    [n % 0x100, n / 0x100]
  }

  /** Reads two little-endian bytes as a length (`get_u16_le`): the first
      byte is the low-order digit and the second the high-order one. */
  function GetU16Le(lo: byte, hi: byte): u16 {
    lo + 0x100 * hi
  }

  /** Writing a length and reading it back agree in both directions, so the
      prefix `01 00` means 1 and `00 01` means 256. */
  lemma LittleEndianPrefix(n: u16, lo: byte, hi: byte)
    ensures GetU16Le(PutU16Le(n)[0], PutU16Le(n)[1]) == n
    ensures PutU16Le(GetU16Le(lo, hi)) == [lo, hi]
    ensures GetU16Le(0x01, 0x00) == 1
    ensures GetU16Le(0x00, 0x01) == 256
  {
    var m := lo + 0x100 * hi;
    var q, r := m / 0x100, m % 0x100;
    assert m == 0x100 * q + r && 0 <= r < 0x100;
    assert 0x100 * (q - hi) == lo - r;
    assert q == hi;
  }

  /** What `read_exact` yields on an in-memory source: the requested bytes
      and the rest of the source, or an end-of-file failure when fewer bytes
      are left than were asked for. */
  datatype ReadOutcome = Filled(buf: seq<byte>, rest: seq<byte>) | UnexpectedEof

  /** Reads exactly `n` bytes from the front of `source`. */
  function ReadExact(source: seq<byte>, n: nat): (r: ReadOutcome)
    ensures r.Filled? <==> n <= |source|
    ensures r.Filled? ==> |r.buf| == n && r.buf + r.rest == source
  {
    if n <= |source| then Filled(source[..n], source[n..]) else UnexpectedEof
  }
}
