# Bitcoin P2P message framing: heading and `headers` payload

A Dafny model of two pieces of libbitcoin-system's peer-to-peer message
layer, with proofs of their wire-format laws.

* **`messages::heading`** (module `MessageHeading`, file `heading.dfy`):
  the 24-byte prefix of every message. It holds a 4-byte network magic, a
  12-byte null-padded command, a 4-byte payload length and a 4-byte
  checksum, all integers little-endian. The class `Heading` has the four
  fields, getters and setters, `Reset`, `FromData` from a reader, `ToData`
  to a writer, `ToBytes`, `IsValid`, `VerifyChecksum`, `Id` and equality.
  Pure functions `EncodeHeading` and `DecodeHeading` give the byte layout.
  The methods are proved against them.
* **`messages::header`** (module `HeaderMessage`, file
  `header_message.dfy`): one block header as carried by a `headers`
  message. It is the 80-byte block-header record. At every protocol version
  other than the canonical one, a variable-length integer `0` (one `0x00`
  byte) follows the record. This is the historical transaction count of
  the Bitcoin `headers` message. The class `Header` holds the record by
  composition. The protocol version and the canonical level are parameters
  of each call.
* The record itself (module `ChainHeader`, file `chain_header.dfy`) follows
  the standard Bitcoin block-header layout: version, previous block hash,
  merkle root, timestamp, bits and nonce. The integers are 4 bytes
  little-endian and the hashes are 32 raw bytes, 80 bytes in all. Its
  `from_data` resets the record to the default when the reader ends
  invalid, as the other readers in the library do.
* The byte cursor (module `Stream`, file `stream.dfy`) is a `Reader` with
  `data`, `pos` and a `valid` flag, and a `Writer` whose `data` grows.
  A read past the end clears `valid`, returns zeros and consumes nothing.
  A read on an invalid reader does the same. No operation sets `valid`
  again.
* `codec.dfy` (module `Codec`) holds the byte encodings the cursor uses:
  little-endian `uint32`, the CompactSize variable-length integer, and
  null-padded fixed-width text.

Modelling choices:

* Bytes and C++ `uint32_t` values are bounded integer subset types (`byte`,
  `uint32`). A C++ `std::string` is a sequence of 8-bit characters (`Text`).
* The checksum is the first four bytes of a double SHA-256. Here it is a
  total function parameter `hash: seq<byte> -> uint32` of the operations
  that need it.
* The bodies of the heading's operations follow its declaration, the
  standard layout and the library's reset-on-failure pattern:
  * `from_data` resets, reads the four fields, and resets again if the
    reader ran out.
  * The command is read as 12 bytes cut at the first zero byte, and written
    truncated or zero-padded to 12 bytes.
  * `is_valid` holds when some field differs from its default.
* The trailer is written and required at every version other than the
  canonical one, including versions above it: the code tests
  `version != canonical`.
* Decoding reads the trailer with `read_byte`, not as a variable-length
  integer. So only the single byte `0x00` is accepted.

## Model

| member | source | states |
|---|---|---|
| `HeaderMessage.SatoshiFixedSize` | src/messages/header.cpp:58-63 | 80 bytes at the canonical version; 81 (the record plus `variable_size(0)`) at any other version |
| `HeaderMessage.EncodeMessage` | src/messages/header.cpp:151-157 | the encoding has exactly `SatoshiFixedSize(version)` bytes and begins with the record's 80 bytes |
| `HeaderMessage.TrailerIffNotCanonical` | src/messages/header.cpp:151-157 | encoding appends exactly `[0x00]` after the record when the version is not canonical, and nothing at the canonical version |
| `HeaderMessage.DecodeMessage` | src/messages/header.cpp:117-131 | fewer than 80 bytes fail as a truncated record; a success consumes exactly `SatoshiFixedSize(version)` bytes |
| `HeaderMessage.MessageRoundTrip` | src/messages/header.cpp:117-157 | decoding at `v` the bytes encoded at `v`, whatever follows them, succeeds with the same record and consumes the fixed size |
| `HeaderMessage.DecodeThenEncode` | src/messages/header.cpp:117-157 | whatever decodes is exactly the encoding at the same version of the decoded record, so decoding is injective on what it consumes |
| `HeaderMessage.TrailerRejected` | src/messages/header.cpp:122-130 | at a non-canonical version, a record that decodes on its own is rejected when a nonzero byte follows it or nothing follows it |
| `HeaderMessage.CanonicalReadsRecordOnly` | src/messages/header.cpp:124-130 | at the canonical version, success equals the record's own success and the bytes after the record do not affect the result |
| `HeaderMessage.Header.constructor` | src/messages/header.cpp:65-68 | a default header holds the default record |
| `HeaderMessage.Header.Create` | src/messages/header.cpp:70-75 | the header holds exactly the six given fields |
| `HeaderMessage.Header.SerializedSize` | src/messages/header.cpp:164-167 | the serialized size is the length of this header's encoding, which is the same for every field value |
| `HeaderMessage.Header.Reset` | src/messages/header.cpp:159-162 | after reset the record is the default record |
| `HeaderMessage.Header.FromData` | src/messages/header.cpp:117-131 | success iff the reader was valid and its remaining bytes decode; on success the record is the decoded one and the reader advanced by the fixed size; on failure the reader is invalid and the record is the default one: reset at lines 127-128 after a bad trailer, and by `chain::header::from_data` after a failed record read at lines 119-120 |
| `HeaderMessage.Header.ToData` | src/messages/header.cpp:151-157 | appends exactly `EncodeMessage(version, record)` to the writer |
| `HeaderMessage.Header.ToBytes` | src/messages/header.cpp:133-143 | returns the encoding, of exactly `serialized_size(version)` bytes (the assertion at line 141) |
| `HeaderMessage.Header.Equals` | src/messages/header.cpp:197-200 | equal iff the records are equal; the protocol version plays no part |
| `HeaderMessage.Header.NotEquals` | src/messages/header.cpp:202-205 | unequal iff the records differ |
| `HeaderMessage.WriteThenRead` | src/messages/header.cpp:117-157 | a header written at a version through a writer and read back at that version through a reader succeeds and is equal to the original |
| `ChainHeader.EncodeRecord` | src/messages/header.cpp:153 | the inner record's encoding is exactly 80 bytes |
| `ChainHeader.DecodeRecord` | src/messages/header.cpp:119 | the inner record decodes iff at least 80 bytes remain |
| `ChainHeader.RecordRoundTrip` | src/messages/header.cpp:119 | decoding the record's encoding, whatever follows, gives the record back |
| `ChainHeader.RecordDecodeEncode` | src/messages/header.cpp:119 | any 80 bytes are the encoding of the record decoded from them |
| `ChainHeader.RecordIgnoresRest` | src/messages/header.cpp:119 | the record is decoded from its first 80 bytes alone |
| `ChainHeader.RecordEquals` | src/messages/header.cpp:199 | the record comparison holds iff all six fields are equal |
| `ChainHeader.ReadRecord` | src/messages/header.cpp:119-120 | the reader stays valid iff it was valid with at least 80 bytes left; then the record is the decoded one and 80 bytes are consumed; otherwise the record is the default |
| `ChainHeader.WriteRecord` | src/messages/header.cpp:153 | appends exactly the record's 80-byte encoding |
| `Codec.VariableZero` | src/messages/header.cpp:156 | the variable-length encoding of 0 is the single byte `0x00` and `variable_size(0)` is 1 |
| `Codec.EncodeVariable` | src/messages/header.cpp:156 | the encoding has `variable_size(v)` bytes; values below 0xFD are one byte equal to the value; larger values are a marker 0xFD, 0xFE or 0xFF announcing 2, 4 or 8 bytes whose little-endian value is `v`. That wide form belongs to the general cursor operation; this line writes only 0 |
| `Codec.LeBytesValue` | src/messages/header.cpp:156 | a value below 256^n is what its `n` little-endian bytes stand for, so the wide forms of the general `write_variable` lose nothing; this line writes only the one-byte form of 0 |
| `Stream.Reader.ReadByte` | src/messages/header.cpp:124 | returns the next byte and advances by one, or, past the end or on an invalid reader, clears `valid` and returns 0 |
| `Stream.Reader.Invalidate` | src/messages/header.cpp:125 | the reader is invalid afterwards and its position is unchanged |
| `Stream.Writer.WriteVariable` | src/messages/header.cpp:156 | appends exactly the variable-length encoding of the value |
| `MessageHeading.CommandName` | include/bitcoin/system/messages/heading.hpp:56 | each known message type has a nonempty command name that fits the 12-byte field |
| `MessageHeading.IdOf` | include/bitcoin/system/messages/heading.hpp:56 | total on every command; a result other than `Unknown` is the type whose name is exactly that command |
| `MessageHeading.IdOfCommandName` | include/bitcoin/system/messages/heading.hpp:56 | every known type is recognised from its own command name (inverse of `IdOf`) |
| `MessageHeading.SatoshiFixedSize` | include/bitcoin/system/messages/heading.hpp:45 | the fixed size is 24 bytes, which `EncodeHeading` meets for every heading |
| `MessageHeading.WireFields` | include/bitcoin/system/messages/heading.hpp:45 | the encoding carries the magic in bytes 0-4, the padded command in bytes 4-16, the payload size in bytes 16-20 and the checksum in bytes 20-24 |
| `MessageHeading.EncodeHeading` | include/bitcoin/system/messages/heading.hpp:45 | the encoding of every heading is `satoshi_fixed_size()` = 24 bytes, whatever the field values |
| `MessageHeading.DecodeHeading` | include/bitcoin/system/messages/heading.hpp:68-70 | decodes iff at least 24 bytes remain; a decoded command fits its field and has no zero character |
| `MessageHeading.HeadingRoundTrip` | include/bitcoin/system/messages/heading.hpp:68-73 | a heading whose command fits 12 bytes decodes from its own encoding, whatever follows, to the same four fields |
| `MessageHeading.HeadingDecodeEncode` | include/bitcoin/system/messages/heading.hpp:68-73 | 24 bytes whose command field is zero-padded are exactly the encoding of what they decode to |
| `MessageHeading.MainnetBlockHeading` | include/bitcoin/system/messages/heading.hpp:56-73 | magic 0xD9B4BEF9, command `block`, size 81, checksum 0x1A2B3C4D: 24 bytes, decoded back unchanged, identified as a block message |
| `MessageHeading.Heading.constructor` | include/bitcoin/system/messages/heading.hpp:50 | a default heading has every field zero or empty and is not valid |
| `MessageHeading.Heading.Create` | include/bitcoin/system/messages/heading.hpp:85-86 | the heading holds exactly the four given fields |
| `MessageHeading.Heading.FromPayload` | include/bitcoin/system/messages/heading.hpp:51-52 | the payload size is the payload length cast to `uint32` (the length itself below 2^32), the checksum is the payload's, so `VerifyChecksum(payload)` holds |
| `MessageHeading.Heading.Magic` | include/bitcoin/system/messages/heading.hpp:59 | `magic()` is the value that the first four bytes of the heading's encoding stand for |
| `MessageHeading.Heading.Command` | include/bitcoin/system/messages/heading.hpp:62 | `command()` is what bytes 4-16 of the encoding read back as, whenever the command fits its 12-byte field |
| `MessageHeading.Heading.PayloadSize` | include/bitcoin/system/messages/heading.hpp:57 | `payload_size()` is the value that bytes 16-20 of the encoding stand for |
| `MessageHeading.Heading.VerifyChecksum` | include/bitcoin/system/messages/heading.hpp:66 | holds iff the four little-endian bytes of the body's checksum are the last four bytes of the heading's encoding; a reads-only query, so it changes nothing |
| `MessageHeading.Heading.Id` | include/bitcoin/system/messages/heading.hpp:56 | a known identifier names exactly this heading's command |
| `MessageHeading.Heading.IsValid` | include/bitcoin/system/messages/heading.hpp:74 | valid iff the fields differ from the default heading |
| `MessageHeading.Heading.SetMagic` | include/bitcoin/system/messages/heading.hpp:59-60 | `magic()` returns the new value; command, payload size and checksum are unchanged |
| `MessageHeading.Heading.SetCommand` | include/bitcoin/system/messages/heading.hpp:62-64 | `command()` returns the new value; magic, payload size and checksum are unchanged |
| `MessageHeading.Heading.Reset` | include/bitcoin/system/messages/heading.hpp:75 | afterwards every field has its default value and the heading is not valid |
| `MessageHeading.Heading.FromData` | include/bitcoin/system/messages/heading.hpp:70 | success iff the reader was valid with at least 24 bytes left; on success the fields are the decoded ones and 24 bytes are consumed; on failure the heading is reset and not valid |
| `MessageHeading.Heading.ToData` | include/bitcoin/system/messages/heading.hpp:73 | appends exactly the 24-byte encoding of the four fields |
| `MessageHeading.Heading.ToBytes` | include/bitcoin/system/messages/heading.hpp:71 | returns the encoding, of exactly `satoshi_fixed_size()` bytes |
| `MessageHeading.Heading.Equals` | include/bitcoin/system/messages/heading.hpp:81 | equal iff all four fields agree |
| `MessageHeading.Heading.NotEquals` | include/bitcoin/system/messages/heading.hpp:82 | unequal iff some field differs |
| `MessageHeading.WriteThenRead` | include/bitcoin/system/messages/heading.hpp:68-81 | a heading whose command fits, written with `to_data` and read with `from_data`, succeeds and is equal to the original |
| `MessageHeading.BuildForPayload` | include/bitcoin/system/messages/heading.hpp:51-66 | a heading built from a payload reports the payload length, accepts that payload's checksum, and decodes from its own bytes to those fields |
| `Codec.TextRoundTrip` | include/bitcoin/system/messages/heading.hpp:90 | a command of at most 12 characters with no zero character reads back from its padded field unchanged |
| `Codec.PaddedFieldRoundTrip` | include/bitcoin/system/messages/heading.hpp:90 | a zero-padded field read as text and written back gives the same bytes |
| `Codec.PadText` | include/bitcoin/system/messages/heading.hpp:73 | the field has exactly the given width: the text's characters, then zero bytes |
| `Codec.UnpadText` | include/bitcoin/system/messages/heading.hpp:70 | the text is the field's bytes before the first zero byte, has no zero character and is no longer than the field |
| `Codec.Le32RoundTrip` | include/bitcoin/system/messages/heading.hpp:89-92 | a `uint32` field reads back from its four little-endian bytes unchanged |
| `Codec.FromLe32RoundTrip` | include/bitcoin/system/messages/heading.hpp:89-92 | any four bytes are the little-endian encoding of the `uint32` read from them |
| `Codec.Uint32` | include/bitcoin/system/messages/heading.hpp:51-52 | the `uint32_t` cast of a length keeps every length below 2^32 |
| `Stream.Reader.ReadString` | include/bitcoin/system/messages/heading.hpp:70 | reads a fixed-width field as text cut at the first zero byte, or clears `valid` and returns empty text |

## Left out

- `maximum_size()` and `maximum_payload_size(version, witness)`: their bodies and the block-size constants they use are not part of this model, so the oversize guard on `payload_size` is not modelled.
- The double-SHA-256 checksum: the hash code is not part of this model, so it is the parameter `hash`. Whether flipping one bit of the body makes `verify_checksum` fail depends on the hash, and it is not modelled.
- `MessageHeading.HeadingRoundTrip`: holds only for commands of at most 12 characters with no zero character. A longer command is truncated by the 12-byte field, and a zero character cuts it short.
- The `std::istream`/`std::ostream` and `data_chunk` overloads and the `factory` functions: they only adapt streams onto the reader and writer.
- Copy and move constructors and assignment operators: C++ ownership mechanics.
- The numeric values of `version::level::canonical`, `minimum` and `maximum`: the version and the canonical level are parameters.
- The full command-to-identifier table behind `id()`: twelve common commands are modelled, and every other command is `Unknown`.
- The AVX2 intrinsics in `include/bitcoin/system/intrinsics/xcpu/functional_256.hpp`: hash acceleration with no logic of its own here.
- `ChainHeader.ReadRecord`: the body of `chain::header::from_data` is not part of this model; that it leaves the default record when the reader ends invalid is taken from the library's reset-on-failure pattern, and `HeaderMessage.Header.FromData` relies on it for the early return at src/messages/header.cpp:119-120.
- `HeaderMessage.Header.FromData`: does not state the reader's position after a failure. The early return after a failed record read is visible only as control flow, because a read on an invalid reader changes nothing.
- `std::shared_ptr` typedefs.
