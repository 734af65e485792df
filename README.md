# Mining-proxy job codec

This is a Dafny model of `proxy/job.go` from the xmrwasp mining proxy. The proxy takes one job from the pool: a hex block template (the *blob*), a job id and a difficulty *target*. It hands each worker a copy of the job with a different 32-bit nonce written into the template. Later it reads the nonce back out of a submitted blob.

The model has four modules:

- `Wrappers` (`wrappers.dfy`): the `Result` type that stands for Go's `(value, error)` pairs.
- `BigEndian` (`bigendian.dfy`): `binary.BigEndian.PutUint32`, `Uint32` and `Uint64` over bytes `0..255`. They are defined through a general big-endian encoding (`ToBE` and `FromBE`), whose round trips are proved in both directions.
- `Hex` (`hex.dfy`): `hex.EncodeToString` and `hex.DecodeString`, which implement Base16 (section 8 of RFC 4648).
  - Encoding writes lower-case digits.
  - Decoding accepts either case and scans the input left to right.
  - When decoding fails, the error is `InvalidByte` for the first character that is not a hex digit. It is `ErrLength` for an odd-length string whose characters are all valid.
- `Proxy` (`job.dfy`): the `Job` record and the code that builds and reads it. This covers `NewJobFromServer`, `NewJob`, `Nonce` and `getTargetUint64`, plus the constants `nonceOffset = 39` and `nonceLength = 4`.
  - The pool message is a `map<string, Value>`, where `Value` is either `Str(s)` or `Other`.
  - `NewJob` is a method over an `array<byte>`. It changes bytes [39, 43) of the caller's buffer in place, as the source does.
  - The method is proved against the value-level function `Partitioned`.

A Go `string` is a sequence of bytes. The model's `GoString` is a `string` whose every character is below 256, with one character per byte, so lengths agree with Go's `len`.

Error handling follows the code:

- The code defines no "malformed hex" or "truncated blob" error. Hex errors are the ones `encoding/hex` returns, and they are passed up unchanged (`BadHex(cause)`).
- `Nonce` does not check the decoded length. The slice at job.go:60 panics only when the decoded slice's *capacity* is below 43. The model makes that panic an explicit error value, `SliceBoundsPanic`, rather than a precondition, so the contracts can say exactly when it happens.
- `hex.DecodeString` decodes in place into the bytes of the string, so the decoded slice's capacity is at least the blob's length. `NonceAsWritten` follows this: a valid blob of 44 to 84 characters (22 to 42 decoded bytes) does not panic, and its "nonce" is read from blob characters left over after the decoded bytes. `Nonce` bounds the slice by the decoded length, which is what the code evidently relies on. The rest of the model uses `Nonce` (see Findings).

## Model

| member | source | states |
|---|---|---|
| `Proxy.NewJobFromServer` | proxy/job.go:29-36 | `Blob`, `ID` and `Target` are the map's strings under `blob`, `job_id` and `target`. A missing key or a non-string value gives `""`. The function never fails and `SubmittedNonces` is empty. |
| `Proxy.NewJobFromServerReadsThreeKeys` | proxy/job.go:29-35 | Two messages that agree on the three keys give the same job, so all other keys are ignored. |
| `Proxy.WithNonce` | proxy/job.go:45-47 | The result has the template's length, bytes [39, 43) are the big-endian nonce, and every other byte is unchanged. |
| `Proxy.Partitioned` | proxy/job.go:39-50 | The worker job keeps `id` and `target`, has empty `SubmittedNonces`, and has a blob twice the template's length that decodes to the template with the nonce embedded. |
| `Proxy.NewJob` | proxy/job.go:39-51 | The caller's buffer is overwritten in place with the nonce field set. The returned blob is the hex of the mutated buffer, and the job equals `Partitioned` of the old buffer. |
| `Proxy.PartitionCopies` | proxy/job.go:39-51 | Two worker jobs built from two private copies of one template each read back their own nonce and no other. |
| `Proxy.Nonce` | proxy/job.go:54-64 | Succeeds exactly when the blob is even-length hex of at least 86 characters. It panics (`SliceBoundsPanic`) exactly when the blob is valid hex that is shorter. A blob that is not even-length hex gives exactly `BadHex` of the decoder's error. On success, the returned bytes re-encode to the blob (lower-cased), and the nonce's big-endian bytes are bytes [39, 43). |
| `Proxy.NonceAsWritten` | proxy/job.go:54-64 | With the slice bounded by the in-place decode buffer, it succeeds exactly when the blob is even-length hex of at least 43 characters. Hex errors are as in `Nonce`. On every blob of at least 86 characters it agrees with `Nonce`. |
| `Proxy.NonceReadsLeftoverText` | proxy/job.go:55-61 | For a blob of 44 `'0'` characters, `Nonce` reports `SliceBoundsPanic`, while the code as written returns nonce `0x30303030` (four ASCII `'0'`s) and 22 zero bytes. |
| `Proxy.NonceRoundTrip` | proxy/job.go:39-64 | For any template of at least 43 bytes and any 32-bit nonce, `Nonce` on the job `NewJob` builds returns that nonce and the mutated buffer, without error. |
| `Proxy.NonceLocatesPartition` | proxy/job.go:54-64 | Any job whose nonce can be read is, up to letter case, the partition of its own decoded bytes with that nonce. |
| `Proxy.PartitionsDiffer` | proxy/job.go:45-48 | Different nonces on one template give different blobs. |
| `Proxy.PartitionIgnoresOldNonce` | proxy/job.go:45-48 | Templates that differ only in the nonce field give the same job. Reusing a buffer that `NewJob` already mutated is therefore the same as using a clean copy. |
| `Proxy.NonceFromBlobText` | proxy/job.go:55-61 | The nonce is the value of the hex numeral at characters [78, 86) of the blob. |
| `Proxy.PartitionOfZeroTemplate` | proxy/job.go:39-61 | For 44 zero bytes and nonce 1, the blob is 39 `"00"` pairs, then `"00000001"`, then `"00"`, and `Nonce` reads 1 back. |
| `Proxy.WidenedTarget` | proxy/job.go:69-71 | An 8-character target becomes 16 characters that start with it. Any other target is unchanged. Widening neither adds nor removes a non-hex character. |
| `Proxy.GetTargetUint64` | proxy/job.go:67-82 | Gives `UnknownTargetFormat` exactly when the target length is neither 8 nor 16. Succeeds exactly when the length is 8 or 16 and every character is hex. Otherwise it returns exactly `BadHex` of the decoder's error on the widened target, and that error is an invalid byte, never an odd length. |
| `Proxy.TargetInvalidByte` | proxy/job.go:69-78 | A hex error names the first non-hex character of the target itself, never one of the appended zeros. |
| `Proxy.TargetWidening` | proxy/job.go:69-71 | An 8-character target gives the same result as that target with `"00000000"` appended. |
| `Proxy.TargetThreshold` | proxy/job.go:76-81 | A 16-character target decodes to its value as a hex numeral. An 8-character target decodes to that value times 2^32. |
| `Proxy.TargetOfShortHex` | proxy/job.go:67-81 | `"b4010000"` decodes to `0xb401000000000000`. |
| `Hex.HexEncode` | proxy/job.go:48 | The output has twice as many characters as the input has bytes, and every character is a lower-case hex digit. |
| `Hex.HexEncodeAt` | proxy/job.go:48 | Byte k is written as its high nibble at character 2k and its low nibble at character 2k+1. |
| `Hex.HexEncodeAppend` | proxy/job.go:48 | Encoding distributes over concatenation. |
| `Hex.HexDecode` | proxy/job.go:55 | Succeeds exactly on even-length strings of hex digits in either case, producing half as many bytes. `ErrLength` means odd length with every character valid. |
| `Hex.HexDecodeInvalidByte` | proxy/job.go:76-78 | An `InvalidByte(c)` error names the first character of the input that is not a hex digit. |
| `Hex.HexDecodeAt` | proxy/job.go:55 | Decoded byte i is 16 times the digit at character 2i plus the digit at character 2i+1. |
| `Hex.HexDecodeSlice` | proxy/job.go:60 | Decoding characters [2i, 2j) gives decoded bytes [i, j). |
| `Hex.DecodeEncode` | proxy/job.go:48 | Decoding inverts encoding for every byte sequence. |
| `Hex.EncodeDecode` | proxy/job.go:55 | Encoding what was decoded gives back the input with its letters lower-cased. |
| `Hex.FromBEHexDecode` | proxy/job.go:81 | Decoding hex and reading the bytes big-endian gives the value of the hex numeral. |
| `Hex.HexNumeralAppend` | proxy/job.go:70 | Appending digits multiplies the numeral by 16 per digit, then adds the appended numeral. |
| `BigEndian.PutUint32` | proxy/job.go:46 | The result has four bytes whose big-endian value is `v`. |
| `BigEndian.PutUint32Shifts` | proxy/job.go:46 | The four bytes are `v >> 24`, `v >> 16`, `v >> 8` and `v`, each truncated to a byte. |
| `BigEndian.Uint32` | proxy/job.go:61 | The result is the unique 32-bit value whose `PutUint32` encoding is the first four bytes. |
| `BigEndian.Uint32Shifts` | proxy/job.go:61 | `Uint32` equals `b0·2^24 + b1·2^16 + b2·2^8 + b3`. |
| `BigEndian.Uint32PutUint32` | proxy/job.go:46-61 | `Uint32(PutUint32(v)) == v`. |
| `BigEndian.Uint64` | proxy/job.go:81 | The result is the unique 64-bit value whose 8-byte big-endian encoding is the first eight bytes. |
| `BigEndian.FromBEToBE` | proxy/job.go:81 | Reading back a big-endian encoding gives the number. |
| `BigEndian.ToBEFromBE` | proxy/job.go:81 | Re-encoding a big-endian value at its width gives the bytes. |

## Left out

- The logger call at proxy/job.go:73 is a diagnostic side effect through another package. Only the returned error is modelled.
- JSON struct tags and the exclusion of `SubmittedNonces` from serialisation are not modelled. They are handled by `encoding/json`.
- job.go never appends to `SubmittedNonces` or checks it for duplicates, so the model only records that it starts empty. Go's nil slice from `NewJobFromServer` and empty slice from `NewJob` are both `[]` here.
- Concurrent partitioning on a shared buffer is not modelled. The hazard shows only through `modifies blobBytes` on `NewJob`.
- Go's `interface{}` values are reduced to "a string or something else".
- `Job` is a value here, while the source returns `*Job`. Nothing in job.go mutates a job after it is built.
- Nonce: on a hex error Go also returns the bytes decoded before the error, and nonce 0. The model's error carries neither.
- Nonce: returns `SliceBoundsPanic` for every valid blob of 44 to 84 characters, on which Go reads leftover blob characters instead of panicking. This is the corrected behaviour; `NonceAsWritten` models the code as written.
- NonceAsWritten: takes the decode buffer's capacity to be exactly the blob's length. Go's allocator may round the capacity up (for example, blobs of 34 to 42 characters get 48 bytes), and then Go reads bytes past the string instead of panicking. The model does not capture this rounding.
- NewJob: requires a buffer of at least 43 bytes. Go panics when the buffer's capacity is below 43. When the length is below 43 but the capacity is not, Go writes past the length, and the hex blob at job.go:48 holds at most part of the nonce. The model covers neither case.
- GoString: a Go string may hold any byte sequence, including invalid UTF-8. The model reads each byte as one character and does not model text encodings.
- GetTargetUint64: the source returns 0 alongside each error. The model's error carries no number.

## Findings

| source | as written | input that shows it | evidently intended | confidence | as-written member | corrected member |
|---|---|---|---|---|---|---|
| proxy/job.go:55-61 | `blobBytes[39:43]` is bounded by the capacity of the slice `hex.DecodeString` returns, which decodes in place into a buffer as long as the blob. No length check comes first. | A blob of 44 `'0'` characters decodes to 22 bytes, and the code returns nonce `0x30303030` with no error. | A blob that decodes to fewer than 43 bytes has no nonce field and is rejected. | not executed; rests on `hex.DecodeString` decoding in place | `Proxy.NonceAsWritten`, `Proxy.NonceReadsLeftoverText` | `Proxy.Nonce`, `Proxy.NonceRoundTrip` |
