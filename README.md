# Ceph kernel client wire codec, modelled in Dafny

This project models `src/kernel/decode.h` of the Ceph kernel client. It is the
cursor-based little-endian codec that every message of the client protocol is
built and parsed with. A caller holds a position pointer `p` and an end pointer
`end` into a buffer it owns. Each macro reads or writes at `*p` and advances it.

- `little_endian.dfy` (module `LittleEndian`): the wire byte order. The types
  `u8`, `u16`, `u32` and `u64` are the unsigned integers of each width.
  `cpu_to_le16/32/64` and `le16/32/64_to_cpu` become pure conversions between a
  value and its bytes, least significant byte first. They are built on one
  general pair, `ToLe` and `FromLe`, whose inverse laws are proved by induction.
- `decode.dfy` (module `CephDecode`): the codec itself.
  - The class `Cursor` holds the buffer (`buf`), the end index (`end`) and the
    cursor (`p`), with `p <= end <= buf.Length` as its invariant `Valid()`.
  - Every macro except the two timestamp macros, and both inline functions,
    is a method of `Cursor`. The unchecked ones require the room that their callers must already have
    checked.
  - The three checked `_safe` decoders return `Bad` for `goto bad`, and the
    checked copy returns `false`. On that path the cursor and every buffer are
    unchanged.
  - `BUG_ON` is a precondition.
  - A write's effect on the buffer is stated with `Splice`, so every byte
    outside the written range is shown to stay unchanged.
  - The two timestamp macros are methods between a host `Timespec` and a wire
    `CephTimespec`, whose fields are the four bytes of each `__le32`.
- `round_trips.dfy` (module `RoundTrips`): clients that write a fresh buffer
  with the encoders and read it back with the checked or unchecked decoders.
  They are verified from the codec's contracts alone. They cover each integer
  width, the string and path records, the timestamp, the bounds check at its
  boundary, and the byte layout of the value 1.

Two facts about `decode.h` that shape the model:
- `decode.h` has no checked encoders. All the encoders are unchecked, and the
  two composite ones stop with `BUG_ON` when the room is short.
- `ceph_encode_filepath` stores `strlen(path)` into a `__u32`. A path of 2^32
  bytes or more therefore has its length reduced modulo 2^32, and only that
  many bytes are copied. `PathLen` models this. The path round trip is stated
  for paths shorter than 2^32 bytes.

## Model

| member | source | states |
|---|---|---|
| `LittleEndian.ToLe` | src/kernel/decode.h:87-101 | packing a value to `width` bytes gives exactly `width` bytes |
| `LittleEndian.FromLe` | src/kernel/decode.h:19-33 | the value of `k` little-endian bytes is below 256^k, so it fits the width that was read |
| `LittleEndian.FromLeToLe` | src/kernel/decode.h:19-33 | unpacking the bytes of a value that fits the width gives the value back (decode after encode) |
| `LittleEndian.ToLeFromLe` | src/kernel/decode.h:19-33 | packing the value of a byte sequence to its own length gives the same bytes (encode after decode) |
| `LittleEndian.ToLeZero` | src/kernel/decode.h:87-101 | zero packs to all-zero bytes at every width |
| `LittleEndian.ToLeOne` | src/kernel/decode.h:87-101 | the value 1 packs to a first byte 0x01 followed only by 0x00 bytes, at every width |
| `LittleEndian.CpuToLe16` | src/kernel/decode.h:97-101 | `cpu_to_le16`: two bytes whose little-endian value is `v` |
| `LittleEndian.CpuToLe32` | src/kernel/decode.h:92-96 | `cpu_to_le32`: four bytes whose little-endian value is `v` |
| `LittleEndian.CpuToLe64` | src/kernel/decode.h:87-91 | `cpu_to_le64`: eight bytes whose little-endian value is `v` |
| `LittleEndian.Le16ToCpu` | src/kernel/decode.h:29-33 | `le16_to_cpu`: the value whose two wire bytes are exactly `b` |
| `LittleEndian.Le32ToCpu` | src/kernel/decode.h:24-28 | `le32_to_cpu`: the value whose four wire bytes are exactly `b` |
| `LittleEndian.Le64ToCpu` | src/kernel/decode.h:19-23 | `le64_to_cpu`: the value whose eight wire bytes are exactly `b` |
| `LittleEndian.CpuToLeOne` | src/kernel/decode.h:87-96 | `cpu_to_le32(1)` is 01 00 00 00 and `cpu_to_le64(1)` is 01 followed by seven 00 bytes |
| `LittleEndian.LeRoundTrips` | src/kernel/decode.h:19-33 | converting to wire order and back is the identity for every 16-, 32- and 64-bit value |
| `CephDecode.Splice` | src/kernel/decode.h:87-106 | a write of `b` at `at` keeps the length, puts `b` at `[at, at+|b|)` and keeps every other byte |
| `CephDecode.SpliceAdjacent` | src/kernel/decode.h:116-121 | writing `a` and then `b` right after it is the same as writing `a + b` |
| `CephDecode.SpliceEmpty` | src/kernel/decode.h:119-121 | writing zero bytes (the skipped `memcpy` when `len == 0`) changes nothing |
| `CephDecode.SpliceWhole` | src/kernel/decode.h:42 | a copy of `|s|` bytes over the whole of `s` leaves exactly the copied bytes |
| `CephDecode.SpliceSlice` | src/kernel/decode.h:87-106 | any slice of the written range reads back as the same slice of what was written |
| `CephDecode.Store` | src/kernel/decode.h:120 | `memcpy` into an array at an offset: the range holds the bytes, every other byte is unchanged |
| `CephDecode.PathLen` | src/kernel/decode.h:115 | a null path has length 0; a path shorter than 2^32 bytes has its own length |
| `CephDecode.PathText` | src/kernel/decode.h:119-120 | the copied path bytes number `PathLen`; they are empty for a null path and are the whole path when it is shorter than 2^32 bytes |
| `CephDecode.LengthPrefixed` | src/kernel/decode.h:128-131 | a length-prefixed blob of `L` bytes occupies `4 + L` bytes |
| `CephDecode.LengthPrefixedFields` | src/kernel/decode.h:128-131 | the first four bytes of a blob decode to its payload length, and the payload follows them |
| `CephDecode.FilepathRecord` | src/kernel/decode.h:116-121 | a path record occupies `8 + 4 + len` bytes |
| `CephDecode.FilepathRecordFields` | src/kernel/decode.h:117-121 | a path record's bytes 0-7 decode to `ino`, bytes 8-11 decode to `len`, and the path bytes follow |
| `CephDecode.FilepathWrites` | src/kernel/decode.h:117-121 | the three consecutive writes of `ceph_encode_filepath` together write exactly the path record |
| `CephDecode.Cursor.Need` | src/kernel/decode.h:13-17 | `ceph_decode_need` lets the caller go on exactly when at least `n` bytes remain (fails exactly when `p + n > end`); it modifies nothing |
| `CephDecode.Cursor.Decode8` | src/kernel/decode.h:34-38 | `ceph_decode_8` returns the byte at `p` and advances the cursor by 1; the buffer is not modified |
| `CephDecode.Cursor.Decode16` | src/kernel/decode.h:29-33 | `ceph_decode_16` returns the little-endian value of bytes `[p, p+2)` and advances the cursor by 2; the buffer is not modified |
| `CephDecode.Cursor.Decode32` | src/kernel/decode.h:24-28 | `ceph_decode_32` returns the little-endian value of bytes `[p, p+4)` and advances the cursor by 4; the buffer is not modified |
| `CephDecode.Cursor.Decode64` | src/kernel/decode.h:19-23 | `ceph_decode_64` returns the little-endian value of bytes `[p, p+8)` and advances the cursor by 8; the buffer is not modified |
| `CephDecode.Cursor.DecodeCopy` | src/kernel/decode.h:40-44 | `ceph_decode_copy` copies bytes `[p, p+n)` in order into the destination, leaves the rest of the destination and the source bytes unchanged, and advances the cursor by `n` |
| `CephDecode.Cursor.Decode16Safe` | src/kernel/decode.h:56-60 | succeeds exactly when at least 2 bytes remain, and then acts as `ceph_decode_16`; otherwise `Bad` with the cursor unchanged |
| `CephDecode.Cursor.Decode32Safe` | src/kernel/decode.h:51-55 | succeeds exactly when at least 4 bytes remain, and then acts as `ceph_decode_32`; otherwise `Bad` with the cursor unchanged |
| `CephDecode.Cursor.Decode64Safe` | src/kernel/decode.h:46-50 | succeeds exactly when at least 8 bytes remain, and then acts as `ceph_decode_64`; otherwise `Bad` with the cursor unchanged |
| `CephDecode.Cursor.DecodeCopySafe` | src/kernel/decode.h:62-66 | succeeds exactly when at least `n` bytes remain, and then acts as `ceph_decode_copy`; otherwise fails with the cursor and the destination unchanged |
| `CephDecode.Cursor.Encode8` | src/kernel/decode.h:102-106 | `ceph_encode_8` writes `v` at `p`, keeps every other byte and advances the cursor by 1 |
| `CephDecode.Cursor.Encode16` | src/kernel/decode.h:97-101 | `ceph_encode_16` writes the 2 little-endian bytes of `v` at `p`, keeps every other byte and advances the cursor by 2 |
| `CephDecode.Cursor.Encode32` | src/kernel/decode.h:92-96 | `ceph_encode_32` writes the 4 little-endian bytes of `v` at `p`, keeps every other byte and advances the cursor by 4 |
| `CephDecode.Cursor.Encode64` | src/kernel/decode.h:87-91 | `ceph_encode_64` writes the 8 little-endian bytes of `v` at `p`, keeps every other byte and advances the cursor by 8 |
| `CephDecode.Cursor.EncodeFilepath` | src/kernel/decode.h:112-122 | requires `12 + len` bytes remaining (the `BUG_ON`; `len` is 0 for a null path); writes the path record at `p`, touches nothing outside it, and advances the cursor by `12 + len` |
| `CephDecode.Cursor.EncodeString` | src/kernel/decode.h:124-132 | requires `4 + len` bytes remaining (the `BUG_ON`); writes the 32-bit length and `s[0..len)` at `p`, touches nothing else, and advances the cursor by `4 + len` |
| `CephDecode.DecodeTimespec` | src/kernel/decode.h:71-75 | each host field gets the value whose little-endian bytes are the matching wire field |
| `CephDecode.EncodeTimespec` | src/kernel/decode.h:76-80 | each wire field gets the little-endian bytes of the matching host field |
| `RoundTrips.RoundTrip8` | src/kernel/decode.h:34-38 | `ceph_encode_8` at `q`, then `ceph_decode_8` from `q`, returns `v`, and both cursors end at `q + 1` |
| `RoundTrips.RoundTrip16` | src/kernel/decode.h:29-33 | `ceph_encode_16` then `ceph_decode_16` at `q` returns `v` for every 16-bit value, and both cursors end at `q + 2` |
| `RoundTrips.RoundTrip32` | src/kernel/decode.h:24-28 | `ceph_encode_32` then `ceph_decode_32` at `q` returns `v` for every 32-bit value, and both cursors end at `q + 4` |
| `RoundTrips.RoundTrip64` | src/kernel/decode.h:19-23 | `ceph_encode_64` then `ceph_decode_64` at `q` returns `v` for every 64-bit value, and both cursors end at `q + 8` |
| `RoundTrips.EncodeOne` | src/kernel/decode.h:87-96 | `ceph_encode_32(1)` and `ceph_encode_64(1)` put the byte 0x01 first and 0x00 in every other byte |
| `RoundTrips.CopySafeBoundary` | src/kernel/decode.h:62-66 | on a region of exactly `k` bytes, a checked copy of `k + 1` bytes fails and leaves the cursor at 0; a copy of `k` bytes succeeds and leaves the cursor at the end |
| `RoundTrips.WriteString` | src/kernel/decode.h:124-132 | after `ceph_encode_string` at `q`, bytes `q..q+4` decode to `len` and the next `len` bytes are `s[0..len)` |
| `RoundTrips.StringRoundTrip` | src/kernel/decode.h:124-132 | a 32-bit length read with `ceph_decode_32_safe`, then that many bytes copied with `ceph_decode_copy_safe`, recovers `s[0..len)`, also for `len == 0`; both cursors advance by `4 + len` |
| `RoundTrips.FilepathFieldsAt` | src/kernel/decode.h:112-122 | in a buffer where a path record was written at `q`, the inode number, the length and the path bytes are found at `q`, `q + 8` and `q + 12` |
| `RoundTrips.WriteFilepath` | src/kernel/decode.h:112-122 | after `ceph_encode_filepath` at `q`, bytes `q..q+8` decode to `ino`, the next four to `len`, and the path bytes follow |
| `RoundTrips.FilepathRoundTrip` | src/kernel/decode.h:112-122 | decoding in the same field order recovers `ino` and exactly the path bytes the encoder copied (`PathText`, a truncated prefix for a path of 2^32 bytes or more), an empty path for a null one, and the whole path when it is shorter than 2^32 bytes; both cursors advance by `12 + len` |
| `RoundTrips.TimespecRoundTrip` | src/kernel/decode.h:71-80 | `ceph_encode_timespec` then `ceph_decode_timespec` reproduces both fields, and the wire record is 8 bytes |

## Left out

- Host byte order and unaligned pointer casts (`*(__u64*)*(p)`). The model works
  on byte sequences, so the host's own representation of an integer never
  appears.
- `unlikely()`, a branch-prediction hint with no effect on behaviour.
- `strlen` on a C string. A path is an optional byte sequence (`None` for a null
  pointer); the terminating NUL byte is not modelled. The model takes a path's
  bytes to contain no 0x00 byte: for a sequence that does, `PathLen` counts
  past the point where `strlen` would stop. Truncating the length to 32 bits
  is modelled.
- `BUG_ON` as a kernel panic. It is only a precondition of `EncodeFilepath` and
  `EncodeString`, so the model shows that a correct caller never reaches it. It
  does not exhibit the abort itself.
- Overflow of the pointer sum `*p + n`. Positions are natural numbers.
- The host `struct timespec` layout (width and signedness of `tv_sec` and
  `tv_nsec`). The host fields are 32-bit unsigned values copied field by field,
  with no truncation from a wider host type.
- Aliasing between a copy's source and the buffer. `Cursor.DecodeCopy` and
  `Cursor.DecodeCopySafe` copy into an array with an offset and exclude
  overlapping ranges by precondition, as `memcpy` does. `Cursor.EncodeString`
  and `Cursor.EncodeFilepath` take their source as a byte sequence value, so
  it cannot alias the buffer. In C, a source that overlaps the length bytes
  just written would read the new bytes; the model does not capture that.
- The implicit conversions at the macros' edges. `ceph_encode_N` narrows a
  wider argument through `cpu_to_leN`, and `ceph_decode_N` assigns the result
  to a variable of the caller's own type. The model types each value at the
  macro's width, so neither conversion appears.
- The unchecked decoders and encoders, `Cursor.DecodeCopy`: the C macros take no
  `end`, and reading or writing past it is the caller's fault. Here they
  require their bytes to lie before `end`, so the cursor invariant
  `p <= end` holds after every call.
- A decoder for length-prefixed blobs or path records. None exists in
  `decode.h`; `RoundTrips` only composes `Decode32Safe`, `Decode64Safe` and
  `DecodeCopySafe` to read back what the encoders wrote.
- Concurrent use of one cursor. The model is sequential.
