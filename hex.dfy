/** Go's `encoding/hex` as `decodeHexPacket` uses it: Base16 decoding as in
    section 8 of RFC 4648, accepting upper- and lower-case digits, and the
    lowercase encoder that is its inverse. */
module Hex {
  import opened GoBase
  import opened GoStrings

  /** The two errors `hex.DecodeString` returns: `hex.ErrLength` for an odd
      number of bytes, `hex.InvalidByteError` naming the offending byte. */
  datatype HexError = ErrLength | InvalidByte(b: byte)

  /** ASCII '0'-'9', 'a'-'f' or 'A'-'F'. */
  predicate IsHexDigit(b: byte) {
    || 0x30 <= b <= 0x39
    || 0x61 <= b <= 0x66
    || 0x41 <= b <= 0x46
  }

  /** A character whose UTF-8 encoding is a single hex digit byte. */
  predicate IsHexChar(c: char) {
    c < '\U{80}' && IsHexDigit(c as int as byte)
  }

  /** The value of a hex digit character. */
  function CharVal(c: char): (v: nat)
    requires IsHexChar(c)
    ensures v < 16
  {
    HexVal(c as int as byte)
  }

  predicate AllHex(src: seq<byte>) {
    forall i :: 0 <= i < |src| ==> IsHexDigit(src[i])
  }

  /** The value of a hex digit, whatever its case. */
  function HexVal(b: byte): (v: nat)
    requires IsHexDigit(b)
    ensures v < 16
    ensures v < 10 <==> b <= 0x39
  {
    if b <= 0x39 then b as int - 0x30
    else if b >= 0x61 then b as int - 0x61 + 10
    else b as int - 0x41 + 10
  }

  /** The lowercase digit for a value below 16. */
  function DigitChar(v: nat): (c: char)
    requires v < 16
    ensures IsHexChar(c)
  {
    if v < 10 then (0x30 + v) as char else (0x61 + v - 10) as char
  }

  function ToLowerChar(c: char): char {
    if 'A' <= c <= 'Z' then (c as int + 0x20) as char else c
  }

  function ToLower(s: string): (r: string)
    ensures |r| == |s| && forall i :: 0 <= i < |s| ==> r[i] == ToLowerChar(s[i])
  {
    seq(|s|, i requires 0 <= i < |s| => ToLowerChar(s[i]))
  }

  /** A digit's value written back as a digit gives the same digit in lower case. */
  lemma DigitCharOfHexVal(c: char)
    requires c < '\U{80}' && IsHexDigit(c as int as byte)
    ensures DigitChar(HexVal(c as int as byte)) == ToLowerChar(c)
  {
  }

  /** A value written as a digit reads back as that value. */
  lemma HexValOfDigitChar(v: nat)
    requires v < 16
    ensures IsHexDigit(DigitChar(v) as int as byte)
    ensures HexVal(DigitChar(v) as int as byte) == v
  {
  }

  /** Text is all hex digits exactly when its bytes are, and then its bytes are its characters. */
  lemma HexTextBytes(s: string)
    ensures (forall i :: 0 <= i < |s| ==> IsHexChar(s[i])) <==> AllHex(Bytes(s))
    ensures AllHex(Bytes(s)) ==> |Bytes(s)| == |s| && forall i :: 0 <= i < |s| ==> Bytes(s)[i] == s[i] as int as byte
  {
    var src := Bytes(s);
    BytesOfAscii(s);
    if AllHex(src) {
      assert IsAsciiBytes(src) by {
        forall i | 0 <= i < |src| ensures src[i] < 0x80 { assert IsHexDigit(src[i]); }
      }
    }
    if forall i :: 0 <= i < |s| ==> IsHexChar(s[i]) {
      assert IsAscii(s);
    }
  }

  /** Position of the first byte that is not a hex digit, or `|src|` if there is none. */
  function FirstInvalid(src: seq<byte>): (k: nat)
    ensures k <= |src|
    ensures forall i :: 0 <= i < k ==> IsHexDigit(src[i])
    ensures k < |src| ==> !IsHexDigit(src[k])
    decreases |src|
  {
    if src == [] || !IsHexDigit(src[0]) then 0
    else
      var k := FirstInvalid(src[1..]);
      assert forall i :: 1 <= i < 1 + k ==> src[i] == src[1..][i - 1];
      1 + k
  }

  lemma FirstInvalidSkipsPair(src: seq<byte>)
    requires |src| >= 2 && IsHexDigit(src[0]) && IsHexDigit(src[1])
    ensures FirstInvalid(src) == 2 + FirstInvalid(src[2..])
  {
    assert src[1..][1..] == src[2..];
  }

  /** `hex.Decode` on a whole byte slice, as `hex.DecodeString` runs it: pairs
      are read left to right, each digit of a pair checked before the next, and
      a lone last byte is checked before the length is blamed. What it returns
      is stated by `DecodeValue`, `DecodeFirstInvalid`, `DecodeOddLength` and
      `DecodeSucceeds`. */
  function Decode(src: seq<byte>): Result<seq<byte>, HexError>
    decreases |src|
  {
    if |src| == 0 then Ok([])
    else if !IsHexDigit(src[0]) then Err(InvalidByte(src[0]))
    else if |src| == 1 then Err(ErrLength)
    else if !IsHexDigit(src[1]) then Err(InvalidByte(src[1]))
    else
      match Decode(src[2..])
      case Err(e) => Err(e)
      case Ok(rest) => Ok([(16 * HexVal(src[0]) + HexVal(src[1])) as byte] + rest)
  }

  /** An even number of hex digits decodes to half as many bytes, byte i made
      of digit 2i as the high nibble and digit 2i+1 as the low one. */
  lemma {:induction false} DecodeValue(src: seq<byte>)
    requires |src| % 2 == 0 && AllHex(src)
    ensures Decode(src).Ok? && |Decode(src).value| == |src| / 2
    ensures forall i :: 0 <= i < |Decode(src).value| ==>
              Decode(src).value[i] as int == 16 * HexVal(src[2 * i]) + HexVal(src[2 * i + 1])
    decreases |src|
  {
    if src != [] {
      var tail := src[2..];
      assert forall i :: 0 <= i < |tail| ==> tail[i] == src[i + 2];
      DecodeValue(tail);
      var rest := Decode(tail).value;
      var out := Decode(src).value;
      assert out == [(16 * HexVal(src[0]) + HexVal(src[1])) as byte] + rest;
      assert forall i :: 1 <= i < |out| ==> out[i] == rest[i - 1] && src[2 * i] == tail[2 * (i - 1)];
    }
  }

  /** Otherwise the first byte that is not a hex digit is the one reported. */
  lemma {:induction false} DecodeFirstInvalid(src: seq<byte>)
    requires FirstInvalid(src) < |src|
    ensures Decode(src) == Err(InvalidByte(src[FirstInvalid(src)]))
    decreases |src|
  {
    if IsHexDigit(src[0]) {
      if !IsHexDigit(src[1]) {
        assert src[1..][0] == src[1];
      } else {
        FirstInvalidSkipsPair(src);
        DecodeFirstInvalid(src[2..]);
      }
    }
  }

  /** An odd number of hex digits is a length error. */
  lemma {:induction false} DecodeOddLength(src: seq<byte>)
    requires AllHex(src) && |src| % 2 == 1
    ensures Decode(src) == Err(ErrLength)
    decreases |src|
  {
    if |src| > 1 {
      var tail := src[2..];
      assert forall i :: 0 <= i < |tail| ==> tail[i] == src[i + 2];
      DecodeOddLength(tail);
    }
  }

  /** Decoding succeeds exactly on an even number of hex digits. */
  lemma DecodeSucceeds(src: seq<byte>)
    ensures Decode(src).Ok? <==> |src| % 2 == 0 && AllHex(src)
  {
    if !AllHex(src) {
      DecodeFirstInvalid(src);
    } else if |src| % 2 == 1 {
      DecodeOddLength(src);
    } else {
      DecodeValue(src);
    }
  }

  /** `hex.DecodeString`: decoding the bytes of a string. */
  function DecodeString(s: string): Result<seq<byte>, HexError> {
    Decode(Bytes(s))
  }

  /** `hex.EncodeToString`: two lowercase digits per byte, high nibble first. */
  function EncodeToString(bs: seq<byte>): (s: string)
    ensures |s| == 2 * |bs|
    ensures forall i :: 0 <= i < |bs| ==>
              s[2 * i] == DigitChar(bs[i] as int / 16) && s[2 * i + 1] == DigitChar(bs[i] as int % 16)
    ensures forall j :: 0 <= j < |s| ==> IsHexChar(s[j])
    decreases |bs|
  {
    if bs == [] then []
    else
      var rest := EncodeToString(bs[1..]);
      var s := [DigitChar(bs[0] as int / 16), DigitChar(bs[0] as int % 16)] + rest;
      assert forall i :: 1 <= i < |bs| ==> bs[i] == bs[1..][i - 1] && s[2 * i] == rest[2 * (i - 1)];
      assert forall j :: 2 <= j < |s| ==> s[j] == rest[j - 2];
      s
  }

  lemma NibbleSplit(hi: nat, lo: nat)
    requires hi < 16 && lo < 16
    ensures (16 * hi + lo) / 16 == hi && (16 * hi + lo) % 16 == lo
  {
  }

  /** Round trip: the lowercase hex text of any byte sequence decodes back to it. */
  lemma {:induction false} DecodeEncode(bs: seq<byte>)
    ensures DecodeString(EncodeToString(bs)) == Ok(bs)
    decreases |bs|
  {
    if bs != [] {
      var s := EncodeToString(bs);
      var hi, lo := bs[0] as int / 16, bs[0] as int % 16;
      EncodeStep(bs);
      HexValOfDigitChar(hi);
      HexValOfDigitChar(lo);
      assert CharVal(s[0]) == hi && CharVal(s[1]) == lo;
      assert s[2..] == EncodeToString(bs[1..]);
      DecodeEncode(bs[1..]);
      DecodeStringPair(s);
      assert (16 * hi + lo) as byte == bs[0];
      assert bs == [bs[0]] + bs[1..];
    }
  }

  /** One decoding step on text: two hex digit characters in front of decodable text. */
  lemma DecodeStringPair(s: string)
    requires |s| >= 2 && IsHexChar(s[0]) && IsHexChar(s[1]) && DecodeString(s[2..]).Ok?
    ensures DecodeString(s) == Ok([(16 * CharVal(s[0]) + CharVal(s[1])) as byte] + DecodeString(s[2..]).value)
  {
    BytesOfAsciiPair(s);
    var src := Bytes(s);
    assert src[2..] == Bytes(s[2..]);
    DecodePair(src);
  }

  /** One decoding step: a valid leading pair becomes the first output byte. */
  lemma DecodeStep(src: seq<byte>)
    requires |src| >= 2 && Decode(src).Ok?
    ensures IsHexDigit(src[0]) && IsHexDigit(src[1]) && Decode(src[2..]).Ok?
    ensures Decode(src).value == [(16 * HexVal(src[0]) + HexVal(src[1])) as byte] + Decode(src[2..]).value
  {
  }

  /** One decoding step, forwards: a valid leading pair in front of decodable text. */
  lemma DecodePair(src: seq<byte>)
    requires |src| >= 2 && IsHexDigit(src[0]) && IsHexDigit(src[1]) && Decode(src[2..]).Ok?
    ensures Decode(src) == Ok([(16 * HexVal(src[0]) + HexVal(src[1])) as byte] + Decode(src[2..]).value)
  {
  }

  /** The bytes of an ASCII pair followed by more text. */
  lemma BytesOfAsciiPair(s: string)
    requires |s| >= 2 && s[0] < '\U{80}' && s[1] < '\U{80}'
    ensures Bytes(s) == [s[0] as int as byte, s[1] as int as byte] + Bytes(s[2..])
  {
    assert s == [s[0]] + ([s[1]] + s[2..]);
    BytesAppend([s[0]], [s[1]] + s[2..]);
    BytesAppend([s[1]], s[2..]);
  }

  lemma EncodeStep(bs: seq<byte>)
    requires |bs| > 0
    ensures EncodeToString(bs) == [DigitChar(bs[0] as int / 16), DigitChar(bs[0] as int % 16)] + EncodeToString(bs[1..])
  {
  }

  lemma ToLowerPair(s: string)
    requires |s| >= 2
    ensures ToLower(s) == [ToLowerChar(s[0]), ToLowerChar(s[1])] + ToLower(s[2..])
  {
    var r := [ToLowerChar(s[0]), ToLowerChar(s[1])] + ToLower(s[2..]);
    assert forall i :: 2 <= i < |s| ==> r[i] == ToLower(s[2..])[i - 2] == ToLowerChar(s[i]);
  }

  /** Encoding works piecewise. */
  lemma {:induction false} EncodeAppend(a: seq<byte>, b: seq<byte>)
    ensures EncodeToString(a + b) == EncodeToString(a) + EncodeToString(b)
    decreases |a|
  {
    if a == [] {
      assert a + b == b;
    } else {
      assert (a + b)[0] == a[0];
      assert (a + b)[1..] == a[1..] + b;
      EncodeAppend(a[1..], b);
    }
  }

  /** Re-encoding the byte a digit pair decodes to gives the pair in lower case. */
  lemma EncodedPairIsLower(c0: char, c1: char, b: byte)
    requires c0 < '\U{80}' && IsHexDigit(c0 as int as byte)
    requires c1 < '\U{80}' && IsHexDigit(c1 as int as byte)
    requires b as int == 16 * HexVal(c0 as int as byte) + HexVal(c1 as int as byte)
    ensures DigitChar(b as int / 16) == ToLowerChar(c0)
    ensures DigitChar(b as int % 16) == ToLowerChar(c1)
  {
    NibbleSplit(HexVal(c0 as int as byte), HexVal(c1 as int as byte));
    DigitCharOfHexVal(c0);
    DigitCharOfHexVal(c1);
  }

  /** The other direction: whatever decodes, re-encoding gives back its text in lower case. */
  lemma {:induction false} EncodeDecode(s: string, bs: seq<byte>)
    requires DecodeString(s) == Ok(bs)
    ensures EncodeToString(bs) == ToLower(s)
    decreases |s|
  {
    var src := Bytes(s);
    DecodeSucceeds(src);
    BytesOfAscii(s);
    assert IsAsciiBytes(src) by {
      forall i | 0 <= i < |src| ensures src[i] < 0x80 { assert IsHexDigit(src[i]); }
    }
    if s != [] {
      assert IsAscii(s) && |src| == |s| >= 2;
      var tail := s[2..];
      BytesOfAsciiPair(s);
      assert src[2..] == Bytes(tail);
      DecodeStep(src);
      DecodeSucceeds(src[2..]);
      var hi, lo := HexVal(src[0]), HexVal(src[1]);
      var rest := DecodeString(tail).value;
      assert bs[1..] == rest;
      EncodeDecode(tail, rest);
      assert bs[0] as int == 16 * hi + lo;
      EncodedPairIsLower(s[0], s[1], bs[0]);
      EncodeStep(bs);
      ToLowerPair(s);
    }
  }
}
