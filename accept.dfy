/** The `Sec-WebSocket-Accept` header of the WebSocket opening handshake (section 4.2.2 of
    RFC 6455): a 20-byte SHA-1 digest that the server derives from the client's key and that
    travels as Base64 text. */
module Accept {
  import opened Wrappers
  import opened Bytes
  import Base64

  /** The GUID that section 1.3 of RFC 6455 fixes for every handshake. */
  const MagicGuid: string := "258EAFA5-E914-47DA-95CA-C5AB0DC85B11"

  const HeaderName: string := "Sec-WebSocket-Accept"

  type Bytes20 = s: seq<byte> | |s| == 20 witness seq(20, _ => 0)

  /** SHA-1, which this model does not define: every operation that hashes takes it as a
      parameter. Its digest is always 20 bytes. */
  type Sha1 = seq<byte> -> Bytes20

  /** `WebSocketAccept([u8; 20])`: a value type, so equality is equality of the bytes. */
  datatype WebSocketAccept = WebSocketAccept(bytes: Bytes20)

  /** The two `ProtocolError`s that `from_str` can return. */
  datatype AcceptError = InvalidAccept | WrongLength

  function Message(e: AcceptError): string
  {
    match e
    case InvalidAccept => "Invalid Sec-WebSocket-Accept"
    case WrongLength => "Sec-WebSocket-Accept must be 20 bytes"
  }

  /** `WebSocketAccept::new`: the key's text with the GUID appended, hashed. The hashed
      message is the key's bytes followed directly by the GUID's bytes, with no separator. */
  function New(keyText: string, sha1: Sha1): (r: WebSocketAccept)
    ensures r.bytes == sha1(Utf8(keyText) + Utf8(MagicGuid))
  {
    var concatKey := keyText + MagicGuid;
    Utf8Concat(keyText, MagicGuid);
    WebSocketAccept(sha1(Utf8(concatKey)))
  }

  /** `serialize`: the Base64 text of the 20 bytes, 27 alphabet characters and one `=`. */
  function Serialize(t: WebSocketAccept): (r: string)
    ensures |r| == 28 && r[27] == Base64.Pad
    ensures forall i | 0 <= i < 27 :: Base64.IsSymbol(r[i])
  {
    Base64.EncodeShape(t.bytes);
    Base64.Encode(t.bytes)
  }

  /** What `from_str` computes: malformed Base64 and a wrong decoded length are two distinct
      errors, and a success holds the decoded bytes as they are. */
  function Parse(accept: string): Result<WebSocketAccept, AcceptError>
  {
    match Base64.Decode(accept)
    case None => Err(InvalidAccept)
    case Some(vec) => if |vec| != 20 then Err(WrongLength) else Ok(WebSocketAccept(vec))
  }

  /** `from_str`: decodes, checks the length, then copies the decoded bytes into a zeroed
      20-byte buffer. */
  method FromStr(accept: string) returns (r: Result<WebSocketAccept, AcceptError>)
    ensures r == Parse(accept)
  {
    var decoded := Base64.Decode(accept);
    if decoded.None? {
      return Err(InvalidAccept);
    }
    var vec := decoded.value;
    if |vec| != 20 {
      return Err(WrongLength);
    }
    var buf := new byte[20](_ => 0);
    var i := 0;
    while i < 20
      invariant 0 <= i <= 20
      invariant buf[..i] == vec[..i]
    {
      buf[i] := vec[i];
      i := i + 1;
    }
    assert buf[..] == buf[..i] && vec[..i] == vec;
    r := Ok(WebSocketAccept(buf[..]));
  }

  /** `fmt_header`: the header value is the serialized token, and reading it back gives the
      same token. */
  function FmtHeader(t: WebSocketAccept): (r: string)
    ensures |r| == 28
    ensures Parse(r) == Ok(t)
  {
    ParseSerialize(t);
    Serialize(t)
  }

  /** `Debug::fmt`: `WebSocketAccept(` and `)` around the serialized token. */
  function DebugFmt(t: WebSocketAccept): (r: string)
    ensures |r| == 45
    ensures r[..16] == "WebSocketAccept(" && r[44] == ')'
    ensures Parse(r[16..44]) == Ok(t)
  {
    var r := "WebSocketAccept(" + Serialize(t) + ")";
    assert r[16..44] == Serialize(t);
    ParseSerialize(t);
    r
  }

  /** Round trip: parsing the serialized token gives the token back. */
  lemma {:induction false} ParseSerialize(t: WebSocketAccept)
    ensures Parse(Serialize(t)) == Ok(t)
  {
    Base64.DecodeEncode(t.bytes);
  }

  /** `from_str` accepts exactly the texts that `serialize` produces: a text parses to `t` iff it
      is the serialization of `t`, that is, iff it is valid Base64 of exactly 20 bytes. */
  lemma ParseOk(accept: string, t: WebSocketAccept)
    ensures Parse(accept) == Ok(t) <==> accept == Serialize(t)
    ensures Parse(accept).Ok? <==> Base64.Decode(accept).Some? && |Base64.Decode(accept).value| == 20
  {
    Base64.DecodeIff(accept, t.bytes);
  }

  /** A text that is valid Base64 of any number of bytes other than 20, fewer or more, is
      rejected with the length error, and only such a text is. */
  lemma ParseWrongLength(accept: string)
    ensures Parse(accept) == Err(WrongLength) <==>
      exists b: seq<byte> :: |b| != 20 && Base64.Encode(b) == accept
  {
    if Parse(accept) == Err(WrongLength) {
      var b := Base64.Decode(accept).value;
      Base64.DecodeIff(accept, b);
    }
    if exists b: seq<byte> :: |b| != 20 && Base64.Encode(b) == accept {
      var b: seq<byte> :| |b| != 20 && Base64.Encode(b) == accept;
      Base64.DecodeIff(accept, b);
    }
  }

  /** A text that is not the Base64 encoding of any byte string is rejected with the encoding
      error, and only such a text is. */
  lemma ParseInvalid(accept: string)
    ensures Parse(accept) == Err(InvalidAccept) <==>
      forall b: seq<byte> :: Base64.Encode(b) != accept
  {
    if Parse(accept) != Err(InvalidAccept) {
      var b := Base64.Decode(accept).value;
      Base64.DecodeIff(accept, b);
    } else {
      forall b: seq<byte> ensures Base64.Encode(b) != accept {
        Base64.DecodeIff(accept, b);
      }
    }
  }

  /** A character that is neither in the Base64 alphabet nor padding makes the text malformed,
      wherever it stands. */
  lemma ParseForeignChar(accept: string, i: int)
    requires 0 <= i < |accept| && !Base64.IsSymbol(accept[i]) && accept[i] != Base64.Pad
    ensures Parse(accept) == Err(InvalidAccept)
  {
    if Base64.Decode(accept).Some? {
      var b := Base64.Decode(accept).value;
      Base64.EncodeDecode(accept);
      Base64.EncodeShape(b);
      assert false;
    }
  }

  /** Section 4.1 of RFC 6455: a client accepts the server's header value iff it is the Base64
      of SHA-1 over its own key followed by the GUID. Parsing and comparing tokens makes
      exactly that decision. */
  lemma ClientValidation(keyText: string, sha1: Sha1, accept: string)
    ensures Parse(accept) == Ok(New(keyText, sha1)) <==>
      accept == Base64.Encode(sha1(Utf8(keyText) + Utf8(MagicGuid)))
  {
    ParseOk(accept, New(keyText, sha1));
  }

  /** Equality of tokens is byte-by-byte equality, whichever way they were built. */
  lemma EqualIffBytesEqual(a: WebSocketAccept, b: WebSocketAccept)
    ensures a == b <==> forall i | 0 <= i < 20 :: a.bytes[i] == b.bytes[i]
  {
    if forall i | 0 <= i < 20 :: a.bytes[i] == b.bytes[i] {
      assert a.bytes == b.bytes;
    }
  }

  /** The digest of the worked example in section 1.3 of RFC 6455. */
  const RfcDigest: Bytes20 := [
    0xb3, 0x7a, 0x4f, 0x2c, 0xc0, 0x62, 0x4f, 0x16, 0x90, 0xf6,
    0x46, 0x06, 0xcf, 0x38, 0x59, 0x45, 0xb2, 0xbe, 0xc4, 0xea
  ]

  /** The worked example: for the key `dGhlIHNhbXBsZSBub25jZQ==`, given the SHA-1 value that
      RFC 6455 publishes for it, the token holds exactly that digest. */
  lemma RfcExample(sha1: Sha1)
    requires sha1(Utf8("dGhlIHNhbXBsZSBub25jZQ==") + Utf8(MagicGuid)) == RfcDigest
    ensures New("dGhlIHNhbXBsZSBub25jZQ==", sha1).bytes == RfcDigest
  {
  }

  /** The worked example's digest cut into the six whole blocks and the final two bytes that
      Base64 encodes one at a time. */
  lemma RfcDigestBlocks()
    ensures RfcDigest == [0xb3, 0x7a, 0x4f] + [0x2c, 0xc0, 0x62] + [0x4f, 0x16, 0x90]
      + [0xf6, 0x46, 0x06] + [0xcf, 0x38, 0x59] + [0x45, 0xb2, 0xbe] + [0xc4, 0xea]
  {
  }

  /** The first three blocks of the digest encode to `s3pP`, `LMBi` and `TxaQ`, the start of
      the header value `s3pPLMBiTxaQ9kYGzzhZRbK+xOo=` that RFC 6455 gives. */
  lemma RfcEncodingHead()
    ensures Base64.EncodeBlock(0xb3, 0x7a, 0x4f) == "s3pP"
    ensures Base64.EncodeBlock(0x2c, 0xc0, 0x62) == "LMBi"
    ensures Base64.EncodeBlock(0x4f, 0x16, 0x90) == "TxaQ"
  {
  }

  /** The last three blocks and the final two bytes encode to `9kYG`, `zzhZ`, `RbK+` and
      `xOo=`, the rest of that header value. */
  lemma RfcEncodingTail()
    ensures Base64.EncodeBlock(0xf6, 0x46, 0x06) == "9kYG"
    ensures Base64.EncodeBlock(0xcf, 0x38, 0x59) == "zzhZ"
    ensures Base64.EncodeBlock(0x45, 0xb2, 0xbe) == "RbK+"
    ensures Base64.Encode([0xc4, 0xea]) == "xOo="
  {
  }

  /** The first eighteen bytes of a byte string encode block by block, ahead of the rest. */
  lemma EncodeSixBlocks(d: seq<byte>)
    requires |d| >= 18
    ensures Base64.Encode(d)
         == Base64.EncodeBlock(d[0], d[1], d[2]) + (Base64.EncodeBlock(d[3], d[4], d[5])
          + (Base64.EncodeBlock(d[6], d[7], d[8]) + (Base64.EncodeBlock(d[9], d[10], d[11])
          + (Base64.EncodeBlock(d[12], d[13], d[14]) + (Base64.EncodeBlock(d[15], d[16], d[17])
          + Base64.Encode(d[18..]))))))
  {
    assert d[0..] == d;
    Base64.EncodeFrom(d, 0);
    Base64.EncodeFrom(d, 3);
    Base64.EncodeFrom(d, 6);
    Base64.EncodeFrom(d, 9);
    Base64.EncodeFrom(d, 12);
    Base64.EncodeFrom(d, 15);
  }

  /** Twenty bytes that are, one by one, the worked example's digest serialize to the header
      value RFC 6455 gives. */
  lemma RfcDigestEncoding(d: Bytes20)
    requires d[0] == 0xb3 && d[1] == 0x7a && d[2] == 0x4f && d[3] == 0x2c && d[4] == 0xc0
    requires d[5] == 0x62 && d[6] == 0x4f && d[7] == 0x16 && d[8] == 0x90 && d[9] == 0xf6
    requires d[10] == 0x46 && d[11] == 0x06 && d[12] == 0xcf && d[13] == 0x38 && d[14] == 0x59
    requires d[15] == 0x45 && d[16] == 0xb2 && d[17] == 0xbe && d[18] == 0xc4 && d[19] == 0xea
    ensures Base64.Encode(d) == "s3pPLMBiTxaQ9kYGzzhZRbK+xOo="
  {
    EncodeSixBlocks(d);
    assert d[18..] == [0xc4, 0xea];
    RfcEncodingHead();
    RfcEncodingTail();
  }

  /** The worked example's digest, byte by byte. */
  lemma RfcDigestBytes(d: Bytes20)
    requires d == RfcDigest
    ensures d[0] == 0xb3 && d[1] == 0x7a && d[2] == 0x4f && d[3] == 0x2c && d[4] == 0xc0
    ensures d[5] == 0x62 && d[6] == 0x4f && d[7] == 0x16 && d[8] == 0x90 && d[9] == 0xf6
    ensures d[10] == 0x46 && d[11] == 0x06 && d[12] == 0xcf && d[13] == 0x38 && d[14] == 0x59
    ensures d[15] == 0x45 && d[16] == 0xb2 && d[17] == 0xbe && d[18] == 0xc4 && d[19] == 0xea
  {
  }

  /** The worked example end to end: for the key `dGhlIHNhbXBsZSBub25jZQ==`, given the digest
      RFC 6455 publishes, the header value is `s3pPLMBiTxaQ9kYGzzhZRbK+xOo=`. */
  lemma RfcHeaderValue(sha1: Sha1)
    requires sha1(Utf8("dGhlIHNhbXBsZSBub25jZQ==") + Utf8(MagicGuid)) == RfcDigest
    ensures FmtHeader(New("dGhlIHNhbXBsZSBub25jZQ==", sha1)) == "s3pPLMBiTxaQ9kYGzzhZRbK+xOo="
  {
    var d := New("dGhlIHNhbXBsZSBub25jZQ==", sha1).bytes;
    RfcExample(sha1);
    RfcDigestBytes(d);
    RfcDigestEncoding(d);
  }

  /** Only a 28-character text can parse: 20 bytes always encode to 28 characters. */
  lemma ParseLength(accept: string)
    requires |accept| != 28
    ensures Parse(accept).Err?
  {
    if Base64.Decode(accept).Some? {
      Base64.EncodeDecode(accept);
    }
  }

  /** The rejected inputs of rust-websocket's `test_header_from_str`: 13 bytes
      (`a short nonce`) and 24 bytes (`a really malicious nonce`) of Base64. */
  lemma FromStrRejectsTestInputs()
    ensures Parse("YSBzaG9ydCBub25jZQ==").Err?
    ensures Parse("YSByZWFsbHkgbWFsaWNpb3VzIG5vbmNl").Err?
  {
    ParseLength("YSBzaG9ydCBub25jZQ==");
    ParseLength("YSByZWFsbHkgbWFsaWNpb3VzIG5vbmNl");
  }
}
