/** Base64 with the standard alphabet and `=` padding (section 4 of RFC 4648), the codec the
    header value is written in. Decoding is strict: the text is a whole number of four-character
    blocks, padding appears only at the end of the last block, and the bits the padding leaves
    over must be zero. Under these rules every byte string has exactly one encoding. */
module Base64 {
  import opened Wrappers
  import opened Bytes

  const Pad: char := '='

  /** The character of a 6-bit value: `A`-`Z`, `a`-`z`, `0`-`9`, `+`, `/` (RFC 4648, Table 1). */
  function Symbol(v: int): (c: char)
    requires 0 <= v < 64
    ensures c != Pad
  {
    if v < 26 then ('A' as int + v) as char
    else if v < 52 then ('a' as int + (v - 26)) as char
    else if v < 62 then ('0' as int + (v - 52)) as char
    else if v == 62 then '+'
    else '/'
  }

  /** The 6-bit value of an alphabet character; `None` for anything else, padding included. */
  function Value(c: char): (r: Option<int>)
    ensures r.Some? ==> 0 <= r.value < 64
    ensures c == Pad ==> r.None?
  {
    if 'A' <= c <= 'Z' then Some(c as int - 'A' as int)
    else if 'a' <= c <= 'z' then Some(c as int - 'a' as int + 26)
    else if '0' <= c <= '9' then Some(c as int - '0' as int + 52)
    else if c == '+' then Some(62)
    else if c == '/' then Some(63)
    else None
  }

  predicate IsSymbol(c: char)
  {
    Value(c).Some?
  }

  /** `Value` and `Symbol` are inverse: each alphabet character is the symbol of its value. */
  lemma SymbolOfValue(c: char)
    requires Value(c).Some?
    ensures Symbol(Value(c).value) == c
  {
  }

  lemma ValueOfSymbol(v: int)
    requires 0 <= v < 64
    ensures Value(Symbol(v)) == Some(v)
  {
  }

  /** Number of `=` characters that end the encoding of `n` bytes. */
  function PadLength(n: nat): nat
  {
    if n % 3 == 0 then 0 else 3 - n % 3
  }

  /** Three bytes, 24 bits, as four 6-bit characters. */
  function EncodeBlock(x: byte, y: byte, z: byte): string
  {
    [Symbol(x / 4), Symbol(x % 4 * 16 + y / 16), Symbol(y % 16 * 4 + z / 64), Symbol(z % 64)]
  }

  /** `base64::encode`: whole blocks, then a final block of one or two bytes filled out with
      zero bits and padded to four characters. */
  function Encode(b: seq<byte>): (s: string)
    ensures |s| == 4 * ((|b| + 2) / 3)
    decreases |b|
  {
    if |b| == 0 then []
    else if |b| == 1 then [Symbol(b[0] / 4), Symbol(b[0] % 4 * 16), Pad, Pad]
    else if |b| == 2 then [Symbol(b[0] / 4), Symbol(b[0] % 4 * 16 + b[1] / 16), Symbol(b[1] % 16 * 4), Pad]
    else EncodeBlock(b[0], b[1], b[2]) + Encode(b[3..])
  }

  /** Four alphabet characters back to three bytes. */
  function DecodeBlock(q: string): Option<seq<byte>>
    requires |q| == 4
  {
    var a, b, c, d := Value(q[0]), Value(q[1]), Value(q[2]), Value(q[3]);
    if a.Some? && b.Some? && c.Some? && d.Some? then
      Some([a.value * 4 + b.value / 16, b.value % 16 * 16 + c.value / 4, c.value % 4 * 64 + d.value])
    else
      None
  }

  /** The last block, which may carry one (`xxx=`) or two (`xx==`) padding characters. */
  function DecodeFinal(q: string): Option<seq<byte>>
    requires |q| == 4
  {
    var a, b, c := Value(q[0]), Value(q[1]), Value(q[2]);
    if q[2] == Pad && q[3] == Pad then
      if a.Some? && b.Some? && b.value % 16 == 0 then Some([a.value * 4 + b.value / 16]) else None
    else if q[3] == Pad then
      if a.Some? && b.Some? && c.Some? && c.value % 4 == 0 then
        Some([a.value * 4 + b.value / 16, b.value % 16 * 16 + c.value / 4])
      else
        None
    else
      DecodeBlock(q)
  }

  /** `base64::decode`: `None` when the text is not a valid encoding. */
  function Decode(s: string): Option<seq<byte>>
    decreases |s|
  {
    if |s| % 4 != 0 then None
    else if |s| == 0 then Some([])
    else if |s| == 4 then DecodeFinal(s)
    else Join(DecodeBlock(s[..4]), Decode(s[4..]))
  }

  function Join(h: Option<seq<byte>>, t: Option<seq<byte>>): Option<seq<byte>>
  {
    if h.Some? && t.Some? then Some(h.value + t.value) else None
  }

  /** `s` is alphabet characters followed by `pad` padding characters. */
  predicate Padded(s: string, pad: nat)
  {
    pad <= |s| && forall i | 0 <= i < |s| :: if i < |s| - pad then IsSymbol(s[i]) else s[i] == Pad
  }

  /** The encoding of `b` is alphabet characters followed by exactly `PadLength(|b|)` padding
      characters. */
  lemma {:induction false} EncodeShape(b: seq<byte>)
    ensures Padded(Encode(b), PadLength(|b|))
  {
    if |b| < 3 {
      EncodeShapeFinal(b);
    } else {
      EncodeShape(b[3..]);
      BlockShape(b[0], b[1], b[2]);
      EncodeStep(b);
      PaddedAppend(EncodeBlock(b[0], b[1], b[2]), Encode(b[3..]), PadLength(|b|));
    }
  }

  lemma EncodeShapeFinal(b: seq<byte>)
    requires |b| < 3
    ensures Padded(Encode(b), PadLength(|b|))
  {
    if |b| == 1 {
      EncodeShapeOne(b);
    } else if |b| == 2 {
      EncodeShapeTwo(b);
    }
  }

  lemma EncodeShapeOne(b: seq<byte>)
    requires |b| == 1
    ensures Padded(Encode(b), 2)
  {
    var x := b[0];
    SplitOne(x);
    ValueOfSymbol(x / 4);
    ValueOfSymbol(x % 4 * 16);
    var q := [Symbol(x / 4), Symbol(x % 4 * 16), Pad, Pad];
    assert Encode(b) == q;
    assert IsSymbol(q[0]) && IsSymbol(q[1]);
  }

  lemma EncodeShapeTwo(b: seq<byte>)
    requires |b| == 2
    ensures Padded(Encode(b), 1)
  {
    var x, y := b[0], b[1];
    SplitTwo(x, y);
    ValueOfSymbol(x / 4);
    ValueOfSymbol(x % 4 * 16 + y / 16);
    ValueOfSymbol(y % 16 * 4);
    var q := [Symbol(x / 4), Symbol(x % 4 * 16 + y / 16), Symbol(y % 16 * 4), Pad];
    assert Encode(b) == q;
    assert IsSymbol(q[0]) && IsSymbol(q[1]) && IsSymbol(q[2]);
  }

  /** Three or more bytes: a whole block, then the encoding of the rest. */
  lemma EncodeStep(b: seq<byte>)
    requires |b| >= 3
    ensures Encode(b) == EncodeBlock(b[0], b[1], b[2]) + Encode(b[3..])
    ensures PadLength(|b|) == PadLength(|b[3..]|)
  {
    assert |b[3..]| % 3 == |b| % 3;
  }

  /** From any offset with a whole block ahead, the encoding is that block's four characters
      followed by the encoding of what comes after it. */
  lemma EncodeFrom(b: seq<byte>, k: nat)
    requires k + 3 <= |b|
    ensures Encode(b[k..]) == EncodeBlock(b[k], b[k + 1], b[k + 2]) + Encode(b[k + 3..])
  {
    var e := b[k..];
    assert e[3..] == b[k + 3..];
    assert e[0] == b[k] && e[1] == b[k + 1] && e[2] == b[k + 2];
    EncodeStep(e);
  }

  lemma BlockShape(x: byte, y: byte, z: byte)
    ensures Padded(EncodeBlock(x, y, z), 0)
  {
    SplitBlock(x, y, z);
    ValueOfSymbol(x / 4);
    ValueOfSymbol(x % 4 * 16 + y / 16);
    ValueOfSymbol(y % 16 * 4 + z / 64);
    ValueOfSymbol(z % 64);
  }

  lemma PaddedAppend(q: string, e: string, pad: nat)
    requires Padded(q, 0) && Padded(e, pad)
    ensures Padded(q + e, pad)
  {
    forall i | 0 <= i < |q + e|
      ensures if i < |q + e| - pad then IsSymbol((q + e)[i]) else (q + e)[i] == Pad
    {
      if i < |q| {
        assert (q + e)[i] == q[i];
      } else {
        assert (q + e)[i] == e[i - |q|];
      }
    }
  }

  /** Splitting a value into a high part and a low part below the divisor `k`. */
  lemma Split(hi: int, lo: int, k: int)
    requires k == 4 || k == 16 || k == 64
    requires 0 <= lo < k
    ensures (hi * k + lo) / k == hi && (hi * k + lo) % k == lo
  {
    if k == 4 {
      assert (hi * 4 + lo) / 4 == hi && (hi * 4 + lo) % 4 == lo;
    } else if k == 16 {
      assert (hi * 16 + lo) / 16 == hi && (hi * 16 + lo) % 16 == lo;
    } else {
      assert (hi * 64 + lo) / 64 == hi && (hi * 64 + lo) % 64 == lo;
    }
  }

  /** Three bytes cut into four 6-bit values, and those values put back together. */
  lemma SplitBlock(x: byte, y: byte, z: byte)
    ensures 0 <= x / 4 < 64 && 0 <= x % 4 * 16 + y / 16 < 64
    ensures 0 <= y % 16 * 4 + z / 64 < 64 && 0 <= z % 64 < 64
    ensures x / 4 * 4 + (x % 4 * 16 + y / 16) / 16 == x
    ensures (x % 4 * 16 + y / 16) % 16 * 16 + (y % 16 * 4 + z / 64) / 4 == y
    ensures (y % 16 * 4 + z / 64) % 4 * 64 + z % 64 == z
  {
    Split(x % 4, y / 16, 16);
    Split(y % 16, z / 64, 4);
  }

  /** One byte cut into two 6-bit values, four bits of zeros filling the second. */
  lemma SplitOne(x: byte)
    ensures 0 <= x / 4 < 64 && 0 <= x % 4 * 16 < 64 && x % 4 * 16 % 16 == 0
    ensures x / 4 * 4 + x % 4 * 16 / 16 == x
  {
    Split(x % 4, 0, 16);
  }

  /** Two bytes cut into three 6-bit values, two bits of zeros filling the third. */
  lemma SplitTwo(x: byte, y: byte)
    ensures 0 <= x / 4 < 64 && 0 <= x % 4 * 16 + y / 16 < 64
    ensures 0 <= y % 16 * 4 < 64 && y % 16 * 4 % 4 == 0
    ensures x / 4 * 4 + (x % 4 * 16 + y / 16) / 16 == x
    ensures (x % 4 * 16 + y / 16) % 16 * 16 + y % 16 * 4 / 4 == y
  {
    Split(x % 4, y / 16, 16);
    Split(y % 16, 0, 4);
  }

  /** Four 6-bit values joined into three bytes, and those bytes cut up again. */
  lemma JoinBlock(a: int, b: int, c: int, d: int)
    requires 0 <= a < 64 && 0 <= b < 64 && 0 <= c < 64 && 0 <= d < 64
    ensures 0 <= a * 4 + b / 16 < 0x100 && 0 <= b % 16 * 16 + c / 4 < 0x100
    ensures 0 <= c % 4 * 64 + d < 0x100
    ensures (a * 4 + b / 16) / 4 == a
    ensures (a * 4 + b / 16) % 4 * 16 + (b % 16 * 16 + c / 4) / 16 == b
    ensures (b % 16 * 16 + c / 4) % 16 * 4 + (c % 4 * 64 + d) / 64 == c
    ensures (c % 4 * 64 + d) % 64 == d
  {
    Split(a, b / 16, 4);
    Split(b % 16, c / 4, 16);
    Split(c % 4, d, 64);
  }

  /** Two 6-bit values whose last four bits are zero joined into one byte, and cut up again. */
  lemma JoinOne(a: int, b: int)
    requires 0 <= a < 64 && 0 <= b < 64 && b % 16 == 0
    ensures 0 <= a * 4 + b / 16 < 0x100
    ensures (a * 4 + b / 16) / 4 == a && (a * 4 + b / 16) % 4 * 16 == b
  {
    Split(a, b / 16, 4);
  }

  /** Three 6-bit values whose last two bits are zero joined into two bytes, and cut up again. */
  lemma JoinTwo(a: int, b: int, c: int)
    requires 0 <= a < 64 && 0 <= b < 64 && 0 <= c < 64 && c % 4 == 0
    ensures 0 <= a * 4 + b / 16 < 0x100 && 0 <= b % 16 * 16 + c / 4 < 0x100
    ensures (a * 4 + b / 16) / 4 == a
    ensures (a * 4 + b / 16) % 4 * 16 + (b % 16 * 16 + c / 4) / 16 == b
    ensures (b % 16 * 16 + c / 4) % 16 * 4 == c
  {
    Split(a, b / 16, 4);
    Split(b % 16, c / 4, 16);
  }

  lemma DecodeEncodeBlock(x: byte, y: byte, z: byte)
    ensures DecodeBlock(EncodeBlock(x, y, z)) == Some([x, y, z])
  {
    SplitBlock(x, y, z);
    ValueOfSymbol(x / 4);
    ValueOfSymbol(x % 4 * 16 + y / 16);
    ValueOfSymbol(y % 16 * 4 + z / 64);
    ValueOfSymbol(z % 64);
  }

  /** Decoding undoes encoding: `decode(encode(b)) == Ok(b)` for every byte string. */
  lemma {:induction false} DecodeEncode(b: seq<byte>)
    ensures Decode(Encode(b)) == Some(b)
  {
    if |b| < 3 {
      DecodeEncodeFinal(b);
    } else {
      DecodeEncode(b[3..]);
      DecodeEncodeStep(b);
    }
  }

  lemma DecodeEncodeStep(b: seq<byte>)
    requires |b| >= 3 && Decode(Encode(b[3..])) == Some(b[3..])
    ensures Decode(Encode(b)) == Some(b)
  {
    var t := b[3..];
    var q := EncodeBlock(b[0], b[1], b[2]);
    EncodeStep(b);
    assert Encode(b) == q + Encode(t);
    DecodeEncodeCons(b[0], b[1], b[2], t);
    FirstThree(b);
  }

  lemma FirstThree(b: seq<byte>)
    requires |b| >= 3
    ensures b == [b[0], b[1], b[2]] + b[3..]
  {
  }

  /** One whole block in front of a byte string that already round-trips. */
  lemma DecodeEncodeCons(x: byte, y: byte, z: byte, t: seq<byte>)
    requires Decode(Encode(t)) == Some(t)
    ensures Decode(EncodeBlock(x, y, z) + Encode(t)) == Some([x, y, z] + t)
  {
    DecodeEncodeBlock(x, y, z);
    DecodeStep(EncodeBlock(x, y, z), Encode(t));
  }

  /** A whole block followed by a valid encoding decodes block by block. */
  lemma DecodeStep(q: string, e: string)
    requires |q| == 4 && |e| % 4 == 0
    requires DecodeBlock(q).Some? && Decode(e).Some?
    ensures Decode(q + e) == Some(DecodeBlock(q).value + Decode(e).value)
  {
    if e == [] {
      DecodeLastBlock(q);
      assert q + e == q;
      assert DecodeBlock(q).value + Decode(e).value == DecodeBlock(q).value;
    } else {
      DecodeUnfold(q, e);
    }
  }

  /** A block followed by more blocks: the first is decoded as a whole block. */
  lemma DecodeUnfold(q: string, e: string)
    requires |q| == 4 && |e| % 4 == 0 && e != []
    ensures Decode(q + e) == Join(DecodeBlock(q), Decode(e))
  {
    var s := q + e;
    assert s[..4] == q && s[4..] == e;
    assert |s| % 4 == 0 && |s| != 4 && |s| != 0;
  }

  /** A whole block at the end of the text decodes as it would anywhere else. */
  lemma DecodeLastBlock(q: string)
    requires |q| == 4 && DecodeBlock(q).Some?
    ensures Decode(q) == DecodeBlock(q)
  {
    assert Value(q[2]).Some? && Value(q[3]).Some?;
    assert q[2] != Pad && q[3] != Pad;
    assert DecodeFinal(q) == DecodeBlock(q);
  }

  /** The final block of one or two bytes, with its padding. */
  lemma DecodeEncodeFinal(b: seq<byte>)
    requires |b| < 3
    ensures Decode(Encode(b)) == Some(b)
  {
    if |b| == 1 {
      DecodeEncodeOne(b);
    } else if |b| == 2 {
      DecodeEncodeTwo(b);
    }
  }

  lemma DecodeEncodeOne(b: seq<byte>)
    requires |b| == 1
    ensures Decode(Encode(b)) == Some(b)
  {
    var x := b[0];
    SplitOne(x);
    ValueOfSymbol(x / 4);
    ValueOfSymbol(x % 4 * 16);
    var q := [Symbol(x / 4), Symbol(x % 4 * 16), Pad, Pad];
    DecodeTwoPads(q, x / 4, x % 4 * 16);
    EncodeOne(b);
    assert b == [x];
  }

  lemma DecodeEncodeTwo(b: seq<byte>)
    requires |b| == 2
    ensures Decode(Encode(b)) == Some(b)
  {
    var x, y := b[0], b[1];
    SplitTwo(x, y);
    ValueOfSymbol(x / 4);
    ValueOfSymbol(x % 4 * 16 + y / 16);
    ValueOfSymbol(y % 16 * 4);
    var q := [Symbol(x / 4), Symbol(x % 4 * 16 + y / 16), Symbol(y % 16 * 4), Pad];
    DecodeOnePad(q, x / 4, x % 4 * 16 + y / 16, y % 16 * 4);
    EncodeTwo(b);
    assert b == [x, y];
  }

  lemma EncodeOne(b: seq<byte>)
    requires |b| == 1
    ensures Encode(b) == [Symbol(b[0] / 4), Symbol(b[0] % 4 * 16), Pad, Pad]
  {
  }

  lemma EncodeTwo(b: seq<byte>)
    requires |b| == 2
    ensures Encode(b) == [Symbol(b[0] / 4), Symbol(b[0] % 4 * 16 + b[1] / 16), Symbol(b[1] % 16 * 4), Pad]
  {
  }

  /** A last block `xx==` whose left-over bits are zero decodes to one byte. */
  lemma DecodeTwoPads(q: string, a: int, c: int)
    requires |q| == 4 && q[2] == Pad && q[3] == Pad
    requires Value(q[0]) == Some(a) && Value(q[1]) == Some(c) && c % 16 == 0
    ensures Decode(q) == Some([a * 4 + c / 16])
  {
    assert Decode(q) == DecodeFinal(q);
  }

  /** A last block `xxx=` whose left-over bits are zero decodes to two bytes. */
  lemma DecodeOnePad(q: string, a: int, c: int, d: int)
    requires |q| == 4 && q[2] != Pad && q[3] == Pad
    requires Value(q[0]) == Some(a) && Value(q[1]) == Some(c) && Value(q[2]) == Some(d) && d % 4 == 0
    ensures Decode(q) == Some([a * 4 + c / 16, c % 16 * 16 + d / 4])
  {
    assert Decode(q) == DecodeFinal(q);
  }

  /** Encoding undoes decoding: a text that decodes is the one encoding of what it decodes to. */
  lemma {:induction false} EncodeDecode(s: string)
    requires Decode(s).Some?
    ensures Encode(Decode(s).value) == s
    decreases |s|
  {
    if |s| == 4 {
      EncodeDecodeLast(s);
    } else if |s| > 4 {
      EncodeDecode(s[4..]);
      EncodeDecodeStep(s);
    }
  }

  lemma EncodeDecodeLast(s: string)
    requires |s| == 4 && Decode(s).Some?
    ensures Encode(Decode(s).value) == s
  {
    assert Decode(s) == DecodeFinal(s);
    EncodeDecodeFinal(s);
  }

  lemma EncodeDecodeStep(s: string)
    requires |s| > 4 && Decode(s).Some? && Decode(s[4..]).Some?
    requires Encode(Decode(s[4..]).value) == s[4..]
    ensures Encode(Decode(s).value) == s
  {
    var q, e := s[..4], s[4..];
    assert s == q + e;
    DecodeUnfold(q, e);
    EncodeDecodeCons(q, e);
  }

  /** A whole block in front of a text that already round-trips. */
  lemma EncodeDecodeCons(q: string, e: string)
    requires |q| == 4 && DecodeBlock(q).Some?
    requires Decode(e).Some? && Encode(Decode(e).value) == e
    ensures Encode(DecodeBlock(q).value + Decode(e).value) == q + e
  {
    var h, t := DecodeBlock(q).value, Decode(e).value;
    EncodeDecodeBlock(q);
    assert (h + t)[3..] == t;
    assert Encode(h + t) == EncodeBlock(h[0], h[1], h[2]) + Encode(t);
  }

  lemma EncodeDecodeBlock(q: string)
    requires |q| == 4 && DecodeBlock(q).Some?
    ensures var h := DecodeBlock(q).value; |h| == 3 && EncodeBlock(h[0], h[1], h[2]) == q
  {
    var a, b, c, d := Value(q[0]).value, Value(q[1]).value, Value(q[2]).value, Value(q[3]).value;
    var h := DecodeBlock(q).value;
    assert h == [a * 4 + b / 16, b % 16 * 16 + c / 4, c % 4 * 64 + d];
    assert h[0] == a * 4 + b / 16 && h[1] == b % 16 * 16 + c / 4 && h[2] == c % 4 * 64 + d;
    EncodeSextets(a, b, c, d);
    SymbolOfValue(q[0]);
    SymbolOfValue(q[1]);
    SymbolOfValue(q[2]);
    SymbolOfValue(q[3]);
    assert [Symbol(a), Symbol(b), Symbol(c), Symbol(d)] == q;
  }

  /** Four 6-bit values joined into three bytes encode back to their own four symbols. */
  lemma EncodeSextets(a: int, b: int, c: int, d: int)
    requires 0 <= a < 64 && 0 <= b < 64 && 0 <= c < 64 && 0 <= d < 64
    ensures EncodeBlock(a * 4 + b / 16, b % 16 * 16 + c / 4, c % 4 * 64 + d)
      == [Symbol(a), Symbol(b), Symbol(c), Symbol(d)]
  {
    JoinBlock(a, b, c, d);
  }

  /** The last block re-encodes to itself, padding included. */
  lemma EncodeDecodeFinal(q: string)
    requires |q| == 4 && DecodeFinal(q).Some?
    ensures Encode(DecodeFinal(q).value) == q
  {
    if q[2] == Pad && q[3] == Pad {
      EncodeDecodeTwoPads(q);
    } else if q[3] == Pad {
      EncodeDecodeOnePad(q);
    } else {
      EncodeDecodeBlock(q);
      var h := DecodeBlock(q).value;
      assert h[3..] == [];
      assert Encode(h) == EncodeBlock(h[0], h[1], h[2]) + Encode(h[3..]);
    }
  }

  lemma EncodeDecodeTwoPads(q: string)
    requires |q| == 4 && q[2] == Pad && q[3] == Pad && DecodeFinal(q).Some?
    ensures Encode(DecodeFinal(q).value) == q
  {
    var a, b := Value(q[0]).value, Value(q[1]).value;
    assert DecodeFinal(q).value == [a * 4 + b / 16];
    EncodeSextetsOne(a, b);
    SymbolOfValue(q[0]);
    SymbolOfValue(q[1]);
    assert [Symbol(a), Symbol(b), Pad, Pad] == q;
  }

  lemma EncodeDecodeOnePad(q: string)
    requires |q| == 4 && q[2] != Pad && q[3] == Pad && DecodeFinal(q).Some?
    ensures Encode(DecodeFinal(q).value) == q
  {
    var a, b, c := Value(q[0]).value, Value(q[1]).value, Value(q[2]).value;
    assert DecodeFinal(q).value == [a * 4 + b / 16, b % 16 * 16 + c / 4];
    EncodeSextetsTwo(a, b, c);
    SymbolOfValue(q[0]);
    SymbolOfValue(q[1]);
    SymbolOfValue(q[2]);
    assert [Symbol(a), Symbol(b), Symbol(c), Pad] == q;
  }

  /** Two 6-bit values with four zero bits at the end, joined into a byte, encode back to their
      two symbols and two padding characters. */
  lemma EncodeSextetsOne(a: int, b: int)
    requires 0 <= a < 64 && 0 <= b < 64 && b % 16 == 0
    ensures Encode([a * 4 + b / 16]) == [Symbol(a), Symbol(b), Pad, Pad]
  {
    JoinOne(a, b);
    var x: byte := a * 4 + b / 16;
    EncodeOne([x]);
  }

  /** Three 6-bit values with two zero bits at the end, joined into two bytes, encode back to
      their three symbols and one padding character. */
  lemma EncodeSextetsTwo(a: int, b: int, c: int)
    requires 0 <= a < 64 && 0 <= b < 64 && 0 <= c < 64 && c % 4 == 0
    ensures Encode([a * 4 + b / 16, b % 16 * 16 + c / 4]) == [Symbol(a), Symbol(b), Symbol(c), Pad]
  {
    JoinTwo(a, b, c);
    var x: byte, y: byte := a * 4 + b / 16, b % 16 * 16 + c / 4;
    EncodeTwo([x, y]);
  }

  /** A text decodes to `b` exactly when it is the encoding of `b`. */
  lemma DecodeIff(s: string, b: seq<byte>)
    ensures Decode(s) == Some(b) <==> Encode(b) == s
  {
    if Decode(s) == Some(b) {
      EncodeDecode(s);
    }
    if Encode(b) == s {
      DecodeEncode(b);
    }
  }
}
