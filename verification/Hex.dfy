/** The lowercase hex codec of src/hex.rs.

    Text is held as its bytes: the encoder writes pure ASCII, and the decoder
    reads raw bytes, each taken as the character with that code. */
module Hex {
  import opened Wrappers

  newtype byte = x: int | 0 <= x < 256

  type Text = seq<byte>

  const ZERO: byte := '0' as byte
  const LOWER_A: byte := 'a' as byte
  const UPPER_A: byte := 'A' as byte

  /** `char::from_digit(n, 16)`: `0-9` then `a-f`. */
  function FromDigit(n: byte): (c: byte)
    requires n < 16
    ensures IsLowerHexDigit(c)
  {
    if n < 10 then ZERO + n else LOWER_A + (n - 10)
  }

  /** `char::to_digit(16)`: either case, nothing else. */
  function ToDigit(c: byte): (d: Option<byte>)
    ensures d.Some? <==> IsHexDigit(c)
    ensures d.Some? ==> d.value < 16 && FromDigit(d.value) == Lower(c)
  {
    if ZERO <= c < ZERO + 10 then Some(c - ZERO)
    else if LOWER_A <= c < LOWER_A + 6 then Some(c - LOWER_A + 10)
    else if UPPER_A <= c < UPPER_A + 6 then Some(c - UPPER_A + 10)
    else None
  }

  predicate IsLowerHexDigit(c: byte) {
    ZERO <= c < ZERO + 10 || LOWER_A <= c < LOWER_A + 6
  }

  predicate IsHexDigit(c: byte) {
    IsLowerHexDigit(c) || UPPER_A <= c < UPPER_A + 6
  }

  /** ASCII lowercasing of one hex digit. */
  function Lower(c: byte): byte {
    if UPPER_A <= c < UPPER_A + 6 then c + 32 else c
  }

  function Lowercase(text: Text): (r: Text)
    ensures |r| == |text|
    ensures forall i :: 0 <= i < |text| ==> r[i] == Lower(text[i])
  {
    seq(|text|, i requires 0 <= i < |text| => Lower(text[i]))
  }

  // --- the reference codec ---

  ghost function Encoded(bytes: seq<byte>): Text {
    if bytes == [] then []
    else [FromDigit(bytes[0] / 16), FromDigit(bytes[0] % 16)] + Encoded(bytes[1..])
  }

  ghost function Decoded(hex: Text): Option<seq<byte>> {
    if hex == [] then Some([])
    else if |hex| == 1 then None
    else
      match (ToDigit(hex[0]), ToDigit(hex[1]), Decoded(hex[2..]))
      case (Some(hi), Some(lo), Some(rest)) => Some([hi * 16 + lo] + rest)
      case _ => None
  }

  /** What decoding amounts to once `done` has been decoded and `rest` is still to come. */
  ghost function After(done: seq<byte>, rest: Option<seq<byte>>): Option<seq<byte>> {
    match rest
    case Some(bytes) => Some(done + bytes)
    case None => None
  }

  lemma AfterOneMore(done: seq<byte>, b: byte, rest: seq<byte>)
    ensures done + ([b] + rest) == (done + [b]) + rest
  {
  }

  lemma AfterNothing(hex: Text)
    ensures After([], Decoded(hex[0..])) == Decoded(hex)
  {
    assert hex[0..] == hex;
    assert forall bytes: seq<byte> :: [] + bytes == bytes;
  }

  lemma NothingAfter(hex: Text, done: seq<byte>)
    ensures After(done, Decoded(hex[|hex|..])) == Some(done)
  {
    assert hex[|hex|..] == [] && done + [] == done;
  }

  /** One pair of digits of the text that is still to come. */
  lemma DecodedFrom(hex: Text, at: nat)
    requires at + 1 < |hex|
    ensures Decoded(hex[at..]) == match (ToDigit(hex[at]), ToDigit(hex[at + 1]), Decoded(hex[at + 2..]))
                                  case (Some(hi), Some(lo), Some(rest)) => Some([hi * 16 + lo] + rest)
                                  case _ => None
  {
    assert hex[at..][2..] == hex[at + 2..];
  }

  /** The two digits of a byte read back as its two halves, which make it up. */
  lemma DigitsOfByte(b: byte)
    ensures ToDigit(FromDigit(b / 16)) == Some(b / 16) && ToDigit(FromDigit(b % 16)) == Some(b % 16)
    ensures (b / 16) * 16 + b % 16 == b
  {
  }

  // --- the two loops ---

  method Encode(bytes: seq<byte>) returns (out: Text)
    ensures out == Encoded(bytes)
  {
    out := [];
    for i := 0 to |bytes|
      invariant out + Encoded(bytes[i..]) == Encoded(bytes)
    {
      var b := bytes[i];
      out := out + [FromDigit(b / 16)];
      out := out + [FromDigit(b % 16)];
    }
  }

  method Decode(hex: Text) returns (r: Option<seq<byte>>)
    ensures r == Decoded(hex)
  {
    if |hex| % 2 != 0 {
      DecodeAccepts(hex);
      return None;
    }
    var out: seq<byte> := [];
    var at := 0;
    AfterNothing(hex);
    while at < |hex|
      invariant 0 <= at <= |hex| && at % 2 == 0
      invariant Decoded(hex) == After(out, Decoded(hex[at..]))
    {
      DecodedFrom(hex, at);
      var hi := ToDigit(hex[at]);
      if hi.None? { return None; }
      var lo := ToDigit(hex[at + 1]);
      if lo.None? { return None; }
      if Decoded(hex[at + 2..]).Some? {
        AfterOneMore(out, hi.value * 16 + lo.value, Decoded(hex[at + 2..]).value);
      }
      out := out + [hi.value * 16 + lo.value];
      at := at + 2;
    }
    NothingAfter(hex, out);
    return Some(out);
  }

  // --- what the codec promises ---

  /** Encoding is pure lowercase hex, two digits a byte. */
  lemma {:induction false} EncodingIsLowerHex(bytes: seq<byte>)
    ensures |Encoded(bytes)| == 2 * |bytes|
    ensures forall c :: c in Encoded(bytes) ==> IsLowerHexDigit(c)
  {
    if bytes != [] { EncodingIsLowerHex(bytes[1..]); }
  }

  /** Decoding undoes encoding, for every byte sequence. */
  lemma {:induction false} DecodeUndoesEncode(bytes: seq<byte>)
    ensures Decoded(Encoded(bytes)) == Some(bytes)
  {
    if bytes != [] {
      DecodeUndoesEncode(bytes[1..]);
      DigitsOfByte(bytes[0]);
      assert Encoded(bytes)[2..] == Encoded(bytes[1..]);
      assert bytes == [bytes[0]] + bytes[1..];
    }
  }

  /** Decoding succeeds exactly on even-length text made of hex digits. */
  lemma {:induction false} DecodeAccepts(hex: Text)
    ensures Decoded(hex).Some? <==> |hex| % 2 == 0 && forall c :: c in hex ==> IsHexDigit(c)
  {
    if |hex| >= 2 {
      DecodeAccepts(hex[2..]);
      assert hex == [hex[0], hex[1]] + hex[2..];
    } else if |hex| == 1 {
      assert hex == [hex[0]];
    }
  }

  /** Re-encoding what was decoded gives the text back, lowercased. */
  lemma {:induction false} EncodeOfDecodedIsLowercase(hex: Text)
    requires Decoded(hex).Some?
    ensures Encoded(Decoded(hex).value) == Lowercase(hex)
  {
    if |hex| >= 2 {
      EncodeOfDecodedIsLowercase(hex[2..]);
      var rest := Decoded(hex[2..]).value;
      var value := Decoded(hex).value;
      assert value[1..] == rest;
      assert Lowercase(hex) == [Lower(hex[0]), Lower(hex[1])] + Lowercase(hex[2..]);
    }
  }
}
