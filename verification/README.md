# SLP codec in Dafny

A model of `ssb-slp-encoding`, the Rust crate that implements the Shallow
Length Prefixed (SLP) encoding used by the Scuttlebutt envelope-spec. SLP turns
an ordered list of byte items into one flat byte stream and back. Each item is
written as its length in a 2-byte little-endian `u16`, followed by its raw
bytes. There is no item count, separator or terminator.

The model has three modules:

- `Wire` (`wire.dfy`): bytes and `u16` values as bounded integers, and the three
  error kinds `ItemTooLong`, `WriteError` and `ReadError`. It also holds the
  `try_into` length conversion, the little-endian prefix (`put_u16_le` /
  `get_u16_le`), and `read_exact` on an in-memory source.
- `Slp` (`slp.dfy`): the `SLP` newtype and `into_inner`, plus the pure
  definitions `Encode` and `Decode`. It also has two methods that follow the
  crate's loops: `EncodeWrite`, the `try_for_each` over items, and
  `DecodeRead`, the `while let Ok(_) = reader.read_exact(..)` loop.
- `SlpProperties` (`slp_properties.dfy`): the layout of an encoding, the
  round trip, and an exact description of which streams decode and to what.
  It also has the literal examples.

The sink of `encode_write` is modelled as a byte sequence that the encoder
appends to and that accepts every write. The source of `decode_read` is a byte
sequence that `read_exact` consumes from the front.

`Decode` follows what the code does, not an idealised reading of the format.
The loop at `src/lib.rs:46` ends on any failure of the 2-byte prefix read, and
the function then returns `Ok`. So when 0 or 1 bytes are left at an item
boundary, decoding succeeds with the items read so far. A single trailing byte
is silently dropped. A reading of the format in which a partial prefix is a
read failure does not match this code, and the model follows the code
(`EndOfStream`, `StrayByteExample`). Only a short read of item content is an
error (`src/lib.rs:50`). In that case the whole decode fails and no partial
item list is returned.

## Model

| member | source | states |
|---|---|---|
| `Wire.ToU16` | src/lib.rs:28 | converting an item length to `u16` fails with `ItemTooLong` exactly when the length exceeds 65535; otherwise it keeps the value |
| `Wire.PutU16Le` | src/lib.rs:29-30 | a length is written as exactly two bytes, low byte first: `b0 + 256 * b1` equals the length |
| `Wire.LittleEndianPrefix` | src/lib.rs:47 | writing and reading a prefix are inverse in both directions; `01 00` reads as 1 and `00 01` as 256 |
| `Wire.ReadExact` | src/lib.rs:46-50 | `read_exact` fills its buffer exactly when enough bytes remain; the bytes it returns plus what is left are the original source |
| `Slp.SLP.IntoInner` | src/lib.rs:56-58 | unwrapping yields exactly the wrapped item list (wrapping it again gives back the same value) |
| `Slp.FirstTooLong` | src/lib.rs:27-28 | locates the first item longer than 65535 bytes: every item before it fits, and it does not |
| `Slp.EncodeConcat` | src/lib.rs:27-36 | encoding item by item: the encoding of a concatenated list is the concatenation of the encodings |
| `Slp.Decode` | src/lib.rs:41-54 | decoding fails only with `ReadError`, and every decoded item fits in a `u16` length; fewer than two bytes decode to no items |
| `Slp.EncodeWrite` | src/lib.rs:26-39 | encoding succeeds iff every item is at most 65535 bytes, and its only error is `ItemTooLong`; the sink gains the frames of exactly the items before the first oversized one, with none of that item's bytes |
| `Slp.DecodeRead` | src/lib.rs:41-54 | the read loop succeeds exactly when `Decode` does and returns the same items; on failure it is a `ReadError` with no items |
| `SlpProperties.EncodeLength` | src/lib.rs:27-33 | the encoding's length is the sum of `2 + len` over the items, and it is empty only for the empty list |
| `SlpProperties.EncodeLayout` | src/lib.rs:29-33 | item `i` appears right after the frames of the items before it, as `[len mod 256, len / 256]` followed by its bytes |
| `SlpProperties.DecodeFrame` | src/lib.rs:46-51 | a stream starting with a well-formed frame decodes to that frame's item in front of what the rest decodes to |
| `SlpProperties.DecodeAfterFrames` | src/lib.rs:46-53 | decoding the encoding of some items followed by any bytes yields those items in front of what the bytes decode to, or that decode's error |
| `SlpProperties.RoundTrip` | src/lib.rs:26-54 | when every item fits, decoding the encoding returns exactly the original items, in order |
| `SlpProperties.EndOfStream` | src/lib.rs:46-53 | zero or one byte after the last frame ends decoding with `Ok` of the items read; a stray byte is dropped, not reported |
| `SlpProperties.TruncatedContent` | src/lib.rs:48-50 | a complete prefix declaring more content than follows makes the whole decode a `ReadError`, with no partial list |
| `SlpProperties.DecodeStep` | src/lib.rs:46-51 | one loop iteration: a prefix declaring more bytes than remain is a `ReadError`; otherwise the item is the next `n` bytes and decoding continues after them |
| `SlpProperties.DecodeSound` | src/lib.rs:41-54 | every successful decode is the encoding of the decoded items followed by fewer than two stray bytes |
| `SlpProperties.DecodeIffFramed` | src/lib.rs:41-54 | a stream decodes to a given list iff it is that list's encoding followed by fewer than two stray bytes |
| `SlpProperties.DecodeFailsIffUnframed` | src/lib.rs:46-53 | decoding fails iff the stream is not an encoding followed by fewer than two stray bytes |
| `SlpProperties.EncodeInjective` | src/lib.rs:26-39 | two item lists with the same encoding are equal, so the framing is unambiguous |
| `SlpProperties.EmptyCases` | src/lib.rs:41-53 | the empty list encodes to no bytes, and no bytes decode to the empty list |
| `SlpProperties.ZeroLengthEncode` | src/lib.rs:28-33 | a zero-length item encodes to the bare prefix `00 00` |
| `SlpProperties.ZeroLengthDecode` | src/lib.rs:46-51 | `00 00`, alone or followed by one stray byte, decodes to one zero-length item |
| `SlpProperties.TwoItemEncode` | src/lib.rs:66-70 | `[1, 2, 3]` and `[4, 5, 6, 7]` encode to `03 00 01 02 03 04 00 04 05 06 07` |
| `SlpProperties.TwoItemDecode` | src/lib.rs:72-75 | `03 00 01 02 03 04 00 04 05 06 07` decodes back to `[1, 2, 3]` and `[4, 5, 6, 7]` |
| `SlpProperties.StrayByteExample` | src/lib.rs:46 | a lone byte decodes to no items, and `00 00 x` decodes to one empty item; the stray byte is not an error |
| `SlpProperties.TruncatedExample` | src/lib.rs:50 | `03 00 01 02`, which declares three bytes but carries two, is a `ReadError` |

## Left out

- `Slp.EncodeWrite`: never produces `WriteError`. The sink is an append-only byte sequence that accepts every write, so the `WriteError` path at `src/lib.rs:32-33` is not reachable in the model. That path depends on the caller's writer, which is not part of this model.
- `Slp.EncodeWrite`: assumes each `write` call at `src/lib.rs:32-33` writes its whole buffer. The crate calls `write` rather than `write_all`, so a writer that accepts only part of a buffer would lose bytes silently. Whether that happens depends on the writer's implementation.
- `Slp.DecodeRead`: the source is an in-memory byte sequence whose only failure is running out of bytes. A non-EOF I/O fault other than `Interrupted`, which `read_exact` retries, would also end the loop with `Ok` during a prefix read, and would give `ReadError` during a content read. Such faults come from the caller's reader and are not modelled.
- The generic `Write` and `Read` traits are replaced by byte sequences.
- The error context that the crate attaches through `snafu` is not modelled: the `TryFromIntError` and `io::Error` values. `Error` keeps only the three kinds.
- The `bytes::BufMut`/`Buf` helpers and the `Vec::with_capacity`/`resize` buffer set-up (`src/lib.rs:29-30`, `src/lib.rs:47-49`) are modelled as arithmetic and sequence slicing.
- The reader's position after `decode_read` returns is not modelled. The caller keeps the reader (`&mut R`, `src/lib.rs:41`) and could observe it, but `read_exact` leaves the number of bytes consumed on failure unspecified, and `DecodeRead` returns only the decoded items or the error.
- Item lengths are unbounded naturals. `usize` has no width limit in the model; only the conversion to `u16` is bounded.
- Encoding cannot modify its input: `SLP` is an immutable value passed to `EncodeWrite`. This matches `encode_write` taking `&self` (`src/lib.rs:26`).
