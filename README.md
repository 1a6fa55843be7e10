# Avro Decimal codec, modelled in Dafny

This project models the `Decimal` type of the Rust Avro library (`src/decimal.rs`).
A `Decimal` holds an unscaled signed integer of unbounded magnitude (`value`) and a remembered byte length (`len`).
Its wire form is the big-endian two's-complement encoding that the Apache Avro specification requires for the Decimal logical type.

The model has two modules:

- `TwosComplement` (`twos_complement.dfy`) stands in for the two calls the codec makes into the `num_bigint` library.
  - `FromSignedBytesBe` models `BigInt::from_signed_bytes_be`. It is proved equal to the textbook reading "unsigned value, less 256^n when the top bit is set".
  - `ToSignedBytesBe` models `BigInt::to_signed_bytes_be` as the shortest two's-complement encoding, so zero is `[0x00]`. It is proved to decode back to its input and to be no longer than any other non-empty encoding of the same value.
  - `BigInt` is Dafny's unbounded `int`; a byte is an `int` in `0..255`.
- `AvroDecimal` (`decimal.dfy`) models the struct and its operations.
  - `Decimal` is an immutable datatype: the source never changes a `Decimal` after it is built.
  - `Eq` models `PartialEq::eq`. `Len` models `len`. `FromBytes` models `From<Vec<u8>>`.
  - `ToSignExtendedBytesWithLen` models the one imperative operation. It allocates an array of `len` sign bytes, then copies the minimal encoding into its tail with a loop (the source uses `copy_from_slice`).
  - Its result is tied to the specification function `SignExtendedBytes`. The lemmas prove what that function promises.
  - `ToVec` and `TryFrom` delegate to it, as in the source, so they are methods too.
  - `Serialize` models the `i64::try_from` decision inside `Serialize::serialize`.

Two edge cases of the code, which the model keeps:

- Decoding `[]` gives value 0 with length 0, but the minimal encoding of 0 needs one byte. So `to_vec` on it returns `SignExtend { requested: 0, needed: 1 }`. `RoundTrip` therefore requires a non-empty input, and `EmptyDoesNotRoundTrip` proves the failure.
- Narrowing to `i64` fails with the serializer's custom error, whose message is "to big int". The model carries that message.

## Model

| member | source | states |
|---|---|---|
| `TwosComplement.FromSignedBytesBeIsTwosComplement` | src/decimal.rs:56 | the decoder equals the unsigned big-endian value, less 256^n when the first byte's top bit is set |
| `TwosComplement.DecodeFits` | src/decimal.rs:56 | a decoded n-byte string (n >= 1) lies in [-2^(8n-1), 2^(8n-1)) |
| `TwosComplement.FromSignedBytesBe` | src/decimal.rs:56 | the model of `from_signed_bytes_be`: `[]` reads as 0, and a non-empty string reads as negative exactly when its first byte is 0x80 or more |
| `TwosComplement.MinLenIsLeast` | src/decimal.rs:32-33 | the minimal encoding length is the least n with the value in [-2^(8n-1), 2^(8n-1)), both directions |
| `TwosComplement.DecodeEncode` | src/decimal.rs:32 | encoding a value at any length that can hold it and decoding gives the value back |
| `TwosComplement.EncodeDecode` | src/decimal.rs:56 | decoding any byte string and encoding at its own length gives the string back |
| `TwosComplement.ToBytesAtSignOnly` | src/decimal.rs:30-31 | the n-byte encodings of 0 and -1 are n bytes of 0x00 and of 0xFF |
| `TwosComplement.SignExtension` | src/decimal.rs:29-41 | widening an m-byte encoding to n bytes prepends n - m sign bytes (0xFF if negative, 0x00 otherwise) |
| `TwosComplement.ToSignedBytesBe` | src/decimal.rs:32 | the model of `to_signed_bytes_be`, the encoding at the minimal length `MinLen(v)`: it has exactly that many bytes, and decoding it gives the value back (the decoder is a left inverse of it) |
| `TwosComplement.ToSignedBytesBeIsShortest` | src/decimal.rs:32 | no non-empty byte string decoding to the value is shorter than the minimal encoding |
| `TwosComplement.MinimalEncodingExamples` | src/decimal.rs:32 | minimal encodings of 0, 5, -1, 127, 128, -128 and -129, zero being `[0x00]` |
| `AvroDecimal.SignByte` | src/decimal.rs:30 | the fill byte is 0xFF for a negative value and 0x00 otherwise, so as a one-byte string it reads as -1 or 0 |
| `AvroDecimal.FromBytes` | src/decimal.rs:53-59 | the length is exactly the input byte count, the value is the two's-complement reading, and a non-empty input's value fits in that length (nothing stripped) |
| `AvroDecimal.Len` | src/decimal.rs:21-23 | `len()` of a decimal decoded from some byte string is that string's byte count |
| `AvroDecimal.Eq` | src/decimal.rs:14-18 | two decimals are equal exactly when their minimal encodings are the same bytes, whatever their lengths |
| `AvroDecimal.EqIsEquivalence` | src/decimal.rs:14-18 | value equality is reflexive, symmetric and transitive |
| `AvroDecimal.EqIgnoresLen` | src/decimal.rs:12-18 | decoding `[0x00,0x05]` and `[0x05]` gives equal decimals with lengths 2 and 1 |
| `AvroDecimal.EqIffSignExtension` | src/decimal.rs:12-18 | two non-empty byte strings decode to equal decimals exactly when the longer is the shorter prefixed by copies of its sign byte |
| `AvroDecimal.EqEmptyIffAllZero` | src/decimal.rs:12-18 | the empty byte string decodes equal to exactly the all-0x00 strings, of any length |
| `AvroDecimal.ToSignExtendedBytesWithLen` | src/decimal.rs:29-42 | fails with `SignExtend{requested: len, needed: minimal length}` exactly when len is too short; otherwise returns len bytes, sign bytes then the minimal encoding, decoding to the value |
| `AvroDecimal.SignExtendedBytes` | src/decimal.rs:29-42 | the result of the encode at len: it fails exactly when len is below the minimal length, with `SignExtend{requested: len, needed: minimal length}`, and a success has exactly len bytes |
| `AvroDecimal.SignExtendedBytesPreservesValue` | src/decimal.rs:29-42 | when len is at least the minimal length, the encode succeeds with the len-byte two's-complement representation, which decodes to the original value |
| `AvroDecimal.SignExtendedBytesExamples` | src/decimal.rs:29-42 | -1 and 5 at length 3 give `[FF,FF,FF]` and `[00,00,05]`; 127 and -128 fit one byte; 128 and -129 fail with needed = 2 |
| `AvroDecimal.ToVec` | src/decimal.rs:25-27 | the encode at the stored length: fails exactly when the stored length is too short, else returns that many bytes decoding to the value |
| `AvroDecimal.TryFrom` | src/decimal.rs:45-51 | the same result as `to_vec`, with the error naming the stored and the minimal length |
| `AvroDecimal.RoundTrip` | src/decimal.rs:53-59 | for every non-empty byte string, decoding then encoding at the stored length succeeds and returns the string |
| `AvroDecimal.EmptyDoesNotRoundTrip` | src/decimal.rs:53-59 | decoding `[]` gives value 0 and length 0, and encoding that fails with `SignExtend{requested: 0, needed: 1}` |
| `AvroDecimal.Serialize` | src/decimal.rs:62-71 | narrowing succeeds, returning the value, exactly when -2^63 <= value <= 2^63-1, which is exactly when the minimal encoding has at most 8 bytes; otherwise the "to big int" error |
| `AvroDecimal.SerializeBoundaries` | src/decimal.rs:67-69 | 2^63-1 and -2^63 narrow; 2^63 and -2^63-1 fail, whatever the stored length |

## Left out

- The serializer call: `Serialize` returns the narrowed `i64` or the error. What `serialize_i64` and `SerdeError::custom` then do belongs to the serde library, whose behaviour is not shown.
- The internals of `num_bigint`: `from_signed_bytes_be` and `to_signed_bytes_be` are specification functions. The model assumes the library returns the shortest encoding, with zero as `[0x00]`.
- `usize` and allocation failure: lengths are unbounded naturals. In the source, `vec![sign_byte; len]` (line 31) runs before the length check, so a `len` above `isize::MAX` panics with "capacity overflow"; the model returns `Ok` or `SignExtend` there instead, and does not model the panic or running out of memory.
- The derived `Debug` and `Clone`, and the formatting of the library's error type. Only the `SignExtend { requested, needed }` payload is carried.
- Scale, precision and choosing a length from the schema. These live outside `src/decimal.rs`.
- Heap allocation: the result of `ToSignExtendedBytesWithLen` is returned as the sequence of the array's bytes, not as the array.
