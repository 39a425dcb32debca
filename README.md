# WebSocketAccept: the `Sec-WebSocket-Accept` header value, in Dafny

This project models `src/header/accept.rs` of rust-websocket: the value of the
`Sec-WebSocket-Accept` header in the WebSocket opening handshake (RFC 6455). A
`WebSocketAccept` is a 20-byte SHA-1 digest:

- the server derives it from the client's `Sec-WebSocket-Key` (`new`);
- it travels as Base64 text (`serialize`, `fmt_header`);
- a client reads it back and validates it (`from_str`).

The project has four modules:

- `Wrappers` (`wrappers.dfy`): `Option` and `Result`.
- `Bytes` (`bytes.dfy`): the byte type and the UTF-8 byte view of text, which is what `str::as_bytes` gives.
- `Base64` (`base64.dfy`): the Base64 codec with the standard alphabet and `=` padding, as in section 4 of RFC 4648. Decoding is strict, so every byte string has exactly one encoding. The codec comes with its two round-trip laws and the shape of its output.
- `Accept` (`accept.dfy`): the header type itself:
  - the magic GUID and the header name;
  - `New`, `Serialize`, `Parse` and `FromStr`;
  - the header and `Debug` formatting;
  - the properties that tie these together.

The operations are modelled as follows:

- `from_str` fills a zeroed `[u8; 20]` buffer in place. It is the method `FromStr`, which copies into an `array` in a loop and is proved equal to the function `Parse`.
- Every other operation is pure and is a function.
- SHA-1 is not defined here. `New` takes it as a parameter of type `Sha1`, a function from bytes to exactly 20 bytes.

`Debug` prints `WebSocketAccept(` + the serialized token + `)` (`src/header/accept.rs:19`).

## Model

| member | source | states |
|---|---|---|
| Accept.New | src/header/accept.rs:47-56 | The token's bytes are SHA-1 of the key's UTF-8 bytes followed directly by the GUID's bytes, with no separator. Being a `Bytes20`, it is always 20 bytes. |
| Bytes.Utf8Concat | src/header/accept.rs:49-53 | The bytes of two texts pushed one after the other are the bytes of the first followed by those of the second. |
| Accept.Serialize | src/header/accept.rs:58-61 | The Base64 text of a token is 28 characters: 27 alphabet characters, then one `=`. |
| Base64.Encode | src/header/accept.rs:60 | The encoding of `n` bytes is `4 * ceil(n / 3)` characters long. |
| Base64.EncodeShape | src/header/accept.rs:60 | An encoding is alphabet characters followed by exactly as many `=` as the final block needs (0, 2 or 1 for `n mod 3` = 0, 1, 2). |
| Base64.DecodeEncode | src/header/accept.rs:27 | Decoding the encoding of any byte string gives back that byte string. |
| Base64.EncodeDecode | src/header/accept.rs:27 | Any text that decodes is the encoding of what it decodes to, so decoding accepts only canonical text. |
| Base64.DecodeIff | src/header/accept.rs:27 | A text decodes to `b` if and only if it is the encoding of `b`. |
| Accept.FromStr | src/header/accept.rs:26-42 | The copy into the zeroed 20-byte buffer gives exactly `Parse`'s result. That result is `InvalidAccept` when decoding fails, `WrongLength` when the decoded length is not 20, and otherwise the decoded bytes unchanged. |
| Accept.ParseOk | src/header/accept.rs:26-36 | A text parses to token `t` if and only if it is `t`'s serialization. A text parses at all if and only if it decodes to exactly 20 bytes. |
| Accept.ParseWrongLength | src/header/accept.rs:29-33 | The length error is returned exactly for valid Base64 of any byte count other than 20, shorter or longer. |
| Accept.ParseLength | src/header/accept.rs:29-33 | A text that is not 28 characters long never parses. |
| Accept.ParseInvalid | src/header/accept.rs:38-40 | The encoding error is returned exactly for texts that are the Base64 of no byte string. |
| Accept.ParseForeignChar | src/header/accept.rs:38-40 | A character that is neither in the alphabet nor `=`, at any position, gives the encoding error. |
| Accept.ParseSerialize | src/header/accept.rs:26-36 | Parsing the serialization of any token gives that token back. |
| Accept.ClientValidation | src/header/accept.rs:47-61 | Parsing a received value gives the token derived from the client's own key if and only if the value is the Base64 of SHA-1 over that key followed by the GUID. |
| Accept.FmtHeader | src/header/accept.rs:74-77 | The header value is 28 characters, and parsing it gives the token back. |
| Accept.DebugFmt | src/header/accept.rs:17-21 | The debug text is `WebSocketAccept(`, the 28-character token text that parses back to the token, and `)`. |
| Accept.EqualIffBytesEqual | src/header/accept.rs:14-15 | Two tokens are equal if and only if their 20 bytes are equal position by position. |
| Accept.RfcExample | src/header/accept.rs:88-99 | For the key `dGhlIHNhbXBsZSBub25jZQ==`, given the digest RFC 6455 publishes for it, the token holds that digest. |
| Accept.RfcDigestBlocks | src/header/accept.rs:95-98 | That digest splits into six 3-byte blocks and a final 2 bytes. |
| Accept.RfcEncodingHead | src/header/accept.rs:95-98 | Its first three blocks encode to `s3pP`, `LMBi` and `TxaQ`. |
| Accept.RfcEncodingTail | src/header/accept.rs:95-98 | Its last three blocks and final two bytes encode to `9kYG`, `zzhZ`, `RbK+` and `xOo=`. |
| Base64.EncodeFrom | src/header/accept.rs:60 | From any offset with three bytes ahead, the encoding is that block's four characters followed by the encoding of the rest. |
| Accept.EncodeSixBlocks | src/header/accept.rs:58-61 | The first 18 bytes of a byte string encode as six separate blocks, in order, ahead of the encoding of what remains. |
| Accept.RfcDigestEncoding | src/header/accept.rs:95-98 | Twenty bytes equal, one by one, to the digest RFC 6455 publishes serialize to exactly `s3pPLMBiTxaQ9kYGzzhZRbK+xOo=`. |
| Accept.RfcHeaderValue | src/header/accept.rs:88-99 | For the key `dGhlIHNhbXBsZSBub25jZQ==`, given that SHA-1 yields the published digest, the header value of the derived token is `s3pPLMBiTxaQ9kYGzzhZRbK+xOo=`. |
| Accept.FromStrRejectsTestInputs | src/header/accept.rs:101-111 | The test's 13-byte and 24-byte Base64 inputs are both rejected. |

## Left out

- SHA-1 is not modelled. It is the parameter `sha1` with a 20-byte result, so no property of the real hash function is used or claimed.
- The `base64` crate is not part of this model. Decoding is taken to be strict section 4 of RFC 4648:
  - whole four-character blocks;
  - padding only at the end;
  - zero left-over bits.

  If the crate is more lenient (for example about missing padding or non-zero trailing bits), then on a text it decodes and the strict decoder does not, `Parse` gives `InvalidAccept` where `from_str` gives `Ok` or the length error. For example, the unpadded 13-byte text `YSBzaG9ydCBub25jZQ` would get the length error from a lenient `from_str` but `InvalidAccept` from `Parse`.
- Base64 is decoded character by character rather than over the UTF-8 bytes. Any non-ASCII character is rejected either way, so the outcome is the same.
- `WebSocketKey` and its `serialize` are not part of this model. Only the key's text enters `New`, as the parameter `keyText`.
- `String::with_capacity` sizing is left out: it affects allocation only.
- `parse_header` and `from_one_raw_str`, hyper's header plumbing, are left out. So are the `Headers` registry and its `Name: value\r\n` line format. The header name is kept only as the constant `HeaderName`.
- The `ProtocolError` messages are kept only as the strings of `Message`. No contract is stated about their wording.
- The benchmarks are left out: they measure time, not behaviour.
- Accept.RfcExample: holds under the hypothesis that `sha1` returns the digest RFC 6455 publishes. SHA-1 is not computed.
- Accept.RfcHeaderValue: holds under the same hypothesis as `RfcExample`, that `sha1` returns the published digest.
- Accept.FromStrRejectsTestInputs: covers the two rejected test inputs. The accepted input `YSBzaW1wbGUgc2FtcGwgbm9uY2U=` is not evaluated. `ParseOk` states when any text is accepted.
